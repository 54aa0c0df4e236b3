/**
 * The reusable Huffman codec: trained once on a corpus (frequency table,
 * trie, encoding map), then used for any number of compress and
 * decompress calls, neither of which changes it.
 */
module CompressionUtils {
  import opened ByteUtils
  import opened Huffman
  import opened Codes

  /** The outcome of compressing: the bytes, or the first message character that has no codeword. */
  datatype Result<T> = Ok(value: T) | KeyError(key: char)

  // ---------------------------------------------------------------------------
  // Frequency table

  /** The characters of a text. */
  function CharsOf(text: string): set<char> {
    set c | c in text
  }

  /**
   * The frequency table of a corpus: every corpus character counted, plus
   * one extra count for the terminator, which is therefore always present.
   */
  function Frequencies(corpus: string): (freq: map<char, nat>)
    ensures ETB in freq
  {
    map c | c in CharsOf(corpus) + {ETB} :: multiset(corpus)[c] + (if c == ETB then 1 else 0)
  }

  /** The table's keys are the corpus characters and the terminator, and every count is at least 1. */
  lemma FrequenciesFacts(corpus: string)
    ensures Frequencies(corpus).Keys == CharsOf(corpus) + {ETB}
    ensures forall c | c in Frequencies(corpus) :: Frequencies(corpus)[c] >= 1
    ensures forall c | c in Frequencies(corpus) && c != ETB :: Frequencies(corpus)[c] == multiset(corpus)[c]
    ensures Frequencies(corpus)[ETB] == multiset(corpus)[ETB] + 1
  {
  }

  /** Counting one more character: its count goes up by one, or it enters the table at 1. */
  lemma FrequenciesSnoc(text: string, c: char)
    ensures Frequencies(text + [c])
         == Frequencies(text)[c := (if c in Frequencies(text) then Frequencies(text)[c] else 0) + 1]
  {
    var f, g := Frequencies(text), Frequencies(text + [c]);
    assert multiset(text + [c]) == multiset(text) + multiset{c};
    assert CharsOf(text + [c]) == CharsOf(text) + {c};
    forall d | d in CharsOf(text) + {ETB} && d != c
      ensures multiset(text)[d] == multiset(text + [c])[d]
    {
    }
  }

  /** Changing one count changes the total by the difference. */
  lemma TotalUpdate(freq: map<char, nat>, c: char, v: nat)
    ensures Total(freq[c := v]) + (if c in freq then freq[c] else 0) == Total(freq) + v
  {
    var g := freq[c := v];
    TotalRemove(g, c);
    assert g - {c} == freq - {c};
    if c in freq {
      TotalRemove(freq, c);
    } else {
      assert freq - {c} == freq;
    }
  }

  /** The counts of a corpus's table add up to its length plus one (the terminator's extra count). */
  lemma {:induction false} FrequenciesTotal(corpus: string)
    ensures Total(Frequencies(corpus)) == |corpus| + 1
    decreases |corpus|
  {
    if corpus == [] {
      assert Frequencies(corpus) == map[ETB := 1];
      TotalRemove(map[ETB := 1], ETB);
      assert map[ETB := 1] - {ETB} == map[];
    } else {
      var text, c := corpus[..|corpus| - 1], corpus[|corpus| - 1];
      assert corpus == text + [c];
      FrequenciesTotal(text);
      TotalSnoc(text, c);
    }
  }

  /** Before any character is counted, the table holds only the terminator's count of one. */
  lemma NothingCounted(text: string)
    ensures Frequencies(text[..0]) == map[ETB := 1]
  {
    assert text[..0] == [];
    assert CharsOf([]) == {};
  }

  /** Counting the character at `i` takes the table of `text[..i]` to that of `text[..i + 1]`. */
  lemma CountStep(text: string, i: nat)
    requires i < |text|
    ensures var f, c := Frequencies(text[..i]), text[i];
      Frequencies(text[..i + 1]) == f[c := (if c in f then f[c] else 0) + 1]
  {
    FrequenciesSnoc(text[..i], text[i]);
    assert text[..i + 1] == text[..i] + [text[i]];
  }

  /** One more character adds one to the table's total. */
  lemma TotalSnoc(text: string, c: char)
    ensures Total(Frequencies(text + [c])) == Total(Frequencies(text)) + 1
  {
    FrequenciesSnoc(text, c);
    var f := Frequencies(text);
    TotalUpdate(f, c, (if c in f then f[c] else 0) + 1);
  }

  /** The trie a codec trained on `corpus` holds. */
  ghost function TrieOf(corpus: string): Node {
    BuildTrie(Frequencies(corpus))
  }

  /**
   * The trained trie: well formed, one leaf per table entry, symbols the
   * corpus characters and the terminator, total count the corpus length
   * plus one, and decodable from the root.
   */
  lemma TrieOfFacts(corpus: string)
    ensures WellFormed(TrieOf(corpus))
    ensures Leaves(TrieOf(corpus)) == multiset(Frequencies(corpus).Items)
    ensures Symbols(TrieOf(corpus)) == CharsOf(corpus) + {ETB}
    ensures TrieOf(corpus).freq == |corpus| + 1
    ensures RootDecodable(TrieOf(corpus))
  {
    FrequenciesFacts(corpus);
    BuildTrieFacts(Frequencies(corpus));
    FrequenciesTotal(corpus);
  }

  /** What a codec's contracts rely on: the trained trie decodes from its root and codes the terminator. */
  lemma TrainedFacts(corpus: string)
    ensures RootDecodable(TrieOf(corpus))
    ensures ETB in CodeMap(TrieOf(corpus))
  {
    TrieOfFacts(corpus);
  }

  // ---------------------------------------------------------------------------
  // Bits and bytes

  /** The strings of `data`, concatenated in order. */
  function Concat(data: seq<string>): string
    decreases |data|
  {
    if data == [] then [] else Concat(data[..|data| - 1]) + data[|data| - 1]
  }

  /** `n` padding zeros. */
  function Zeros(n: nat): (z: string)
    ensures |z| == n
  {
    if n == 0 then [] else Zeros(n - 1) + "0"
  }

  lemma {:induction false} ZerosAreZero(n: nat)
    ensures forall i | 0 <= i < n :: Zeros(n)[i] == '0'
  {
    if n > 0 {
      ZerosAreZero(n - 1);
    }
  }

  lemma WholeBytes(n: nat)
    ensures n / 8 * 8 == n - n % 8 && 0 <= n % 8 < 8 && n % 8 <= n
  {
  }

  /** Cutting the next eight bits off `compress` extends the bytes cut so far by one octet. */
  lemma SliceStep(compress: string, data: seq<string>, i: nat)
    requires IsBitString(compress) && i + 8 <= |compress|
    requires Concat(data) == compress[..i]
    ensures IsOctet(compress[i..i + 8])
    ensures Concat(data + [compress[i..i + 8]]) == compress[..i + 8]
  {
    ConcatSnoc(data, compress[i..i + 8]);
    assert compress[..i + 8] == compress[..i] + compress[i..i + 8];
  }

  /** The bits `compress_message` packs: the message's codewords, then the terminator's. */
  function EncodedBits(code: map<char, string>, message: string): string
    requires Covers(code, message) && ETB in code
  {
    Codewords(code, message) + code[ETB]
  }

  /**
   * `bits` followed by zeros up to the next byte boundary; when `bits`
   * already ends on one, a whole byte of zeros is still added.
   */
  function Padded(bits: string): string {
    bits + Zeros(8 - |bits| % 8)
  }

  /** The padded bits start with `bits`, and what follows is one to eight zeros. */
  lemma PaddedShape(bits: string)
    ensures |Padded(bits)| == 8 * (|bits| / 8 + 1)
    ensures |bits| < |Padded(bits)| <= |bits| + 8
    ensures Padded(bits)[..|bits|] == bits
    ensures forall i | |bits| <= i < |Padded(bits)| :: Padded(bits)[i] == '0'
  {
    ZerosAreZero(8 - |bits| % 8);
    assert Padded(bits)[..|bits|] == bits;
  }

  lemma ConcatSnoc(data: seq<string>, x: string)
    ensures Concat(data + [x]) == Concat(data) + x
  {
    assert (data + [x])[..|data|] == data;
  }

  /**
   * The whole bytes cut off `bits` (ending at `cut`), followed by the
   * remaining bits padded with `pad` zeros to eight, are octets; packing
   * them gives bytes whose bits are `bits` followed by the padding.
   */
  lemma PadLayout(bits: string, full: seq<string>, cut: nat, pad: nat, data: seq<string>)
    requires IsBitString(bits) && cut <= |bits| && |bits| - cut + pad == 8
    requires forall k | 0 <= k < |full| :: IsOctet(full[k])
    requires Concat(full) == bits[..cut]
    requires data == full + [bits[cut..] + Zeros(pad)]
    ensures forall k | 0 <= k < |data| :: IsOctet(data[k])
    ensures BytesToBits(BitstringsToBytes(data)) == bits + Zeros(pad)
  {
    TailOctet(bits, cut, pad);
    SplitConcat(bits, full, cut, Zeros(pad));
    assert forall k | 0 <= k < |full| :: data[k] == full[k];
    PackThenExpand(data);
  }

  /** The bits of `bits` from `cut` on, padded with zeros up to eight, form an octet. */
  lemma TailOctet(bits: string, cut: nat, n: nat)
    requires IsBitString(bits) && cut <= |bits| && |bits| - cut + n == 8
    ensures IsOctet(bits[cut..] + Zeros(n))
  {
    var tail := bits[cut..];
    assert forall i | 0 <= i < |tail| :: tail[i] == bits[cut + i];
    PadOctet(tail, n);
  }

  /** Fewer than eight bits padded with zeros up to eight form an octet. */
  lemma PadOctet(tail: string, n: nat)
    requires IsBitString(tail) && |tail| + n == 8
    ensures IsOctet(tail + Zeros(n))
  {
    ZerosAreZero(n);
  }

  /** Appending the rest of `bits` and some padding to a prefix of `bits` gives `bits` and the padding. */
  lemma SplitConcat(bits: string, full: seq<string>, cut: nat, pad: string)
    requires cut <= |bits| && Concat(full) == bits[..cut]
    ensures Concat(full + [bits[cut..] + pad]) == bits + pad
  {
    ConcatSnoc(full, bits[cut..] + pad);
    assert bits == bits[..cut] + bits[cut..];
  }

  /** Appending one zero to the last string of `full + [bits + Zeros(n)]` pads it by one more zero. */
  lemma PadStep(full: seq<string>, bits: string, n: nat)
    ensures (full + [bits + Zeros(n)])[|full| := bits + Zeros(n) + "0"] == full + [bits + Zeros(n + 1)]
  {
    assert bits + Zeros(n) + "0" == bits + Zeros(n + 1);
  }

  /** The bits of a byte buffer, byte after byte, each most significant bit first. */
  function BytesToBits(bytes: seq<Byte>): (bits: string)
    ensures |bits| == 8 * |bytes|
    decreases |bytes|
  {
    if bytes == [] then [] else BytesToBits(bytes[..|bytes| - 1]) + ByteToBitstring(bytes[|bytes| - 1])
  }

  /** Expanding one more byte of a buffer appends that byte's bits. */
  lemma ExpandStep(bytes: seq<Byte>, i: nat)
    requires i < |bytes|
    ensures BytesToBits(bytes[..i + 1]) == BytesToBits(bytes[..i]) + ByteToBitstring(bytes[i])
  {
    assert bytes[..i + 1][..i] == bytes[..i];
  }

  /** Packing octets into bytes and expanding the bytes again gives the octets back, concatenated. */
  lemma PackThenExpand(data: seq<string>)
    requires forall i | 0 <= i < |data| :: IsOctet(data[i])
    ensures BytesToBits(BitstringsToBytes(data)) == Concat(data)
  {
    var bytes := BitstringsToBytes(data);
    forall i | 0 <= i < |data|
      ensures ByteToBitstring(bytes[i]) == data[i]
    {
      OctetValueRoundTrip(data[i]);
    }
    ExpandOctets(bytes, data);
  }

  /** Concatenation of bit strings is associative. */
  lemma Associative(x: string, y: string, z: string)
    ensures x + y + z == x + (y + z)
  {
  }

  /** Bytes that expand one by one to the given octets expand together to their concatenation. */
  lemma {:induction false} ExpandOctets(bytes: seq<Byte>, data: seq<string>)
    requires |bytes| == |data|
    requires forall i | 0 <= i < |data| :: ByteToBitstring(bytes[i]) == data[i]
    ensures BytesToBits(bytes) == Concat(data)
    decreases |data|
  {
    if data != [] {
      var n := |data|;
      var init, prefix := bytes[..n - 1], data[..n - 1];
      forall i | 0 <= i < n - 1
        ensures ByteToBitstring(init[i]) == prefix[i]
      {
        assert init[i] == bytes[i] && prefix[i] == data[i];
      }
      ExpandOctets(init, prefix);
      ExpandLast(bytes, data);
    }
  }

  /** One step of `ExpandOctets`: the last byte expands to the last octet. */
  lemma ExpandLast(bytes: seq<Byte>, data: seq<string>)
    requires |bytes| == |data| > 0
    requires BytesToBits(bytes[..|bytes| - 1]) == Concat(data[..|data| - 1])
    requires ByteToBitstring(bytes[|bytes| - 1]) == data[|data| - 1]
    ensures BytesToBits(bytes) == Concat(data)
  {
  }

  /** A byte buffer is determined by its bits. */
  lemma {:induction false} BytesToBitsInjective(a: seq<Byte>, b: seq<Byte>)
    requires BytesToBits(a) == BytesToBits(b)
    ensures a == b
    decreases |a|
  {
    if a != [] {
      var n := |a|;
      assert |b| == n;
      var a', b' := a[..n - 1], b[..n - 1];
      LastSplit(a);
      LastSplit(b);
      var x, y := ByteToBitstring(a[n - 1]), ByteToBitstring(b[n - 1]);
      assert BytesToBits(a) == BytesToBits(a') + x;
      assert BytesToBits(b) == BytesToBits(b') + y;
      AppendCancel(BytesToBits(a'), x, BytesToBits(b'), y);
      ByteToBitstringInjective(a[n - 1], b[n - 1]);
      BytesToBitsInjective(a', b');
    }
  }

  lemma LastSplit<T>(s: seq<T>)
    requires s != []
    ensures s == s[..|s| - 1] + [s[|s| - 1]]
  {
  }

  lemma AppendCancel(x: string, u: string, y: string, v: string)
    requires |x| == |y| && x + u == y + v
    ensures x == y && u == v
  {
    assert x == (x + u)[..|x|] && y == (y + v)[..|y|];
    assert u == (x + u)[|x|..] && v == (y + v)[|y|..];
  }

  lemma EmptyUnion(m: map<char, string>)
    ensures map[] + m == m
  {
  }

  /** The text `decompress` returns for a bit string: the walk from the root with nothing decoded yet. */
  function Decode(root: Node, bits: string): string
    requires RootDecodable(root)
  {
    assert Within(root, root);
    DecodeFrom(root, root, bits, [])
  }

  // ---------------------------------------------------------------------------
  // The codec

  class ReusableHuffman {
    /** The encoding map: each symbol's root-to-leaf path. */
    var encodingMap: map<char, string>
    /** The root of the trained trie. */
    var trie: Node
    /** The corpus the codec was trained on. */
    ghost var corpus: string

    /** The codec holds the trie trained on its corpus and that trie's encoding map. */
    ghost predicate Valid()
      reads this
    {
      && trie == TrieOf(corpus)
      && encodingMap == CodeMap(trie)
      && RootDecodable(trie)
      && ETB in encodingMap
    }

    /** Trains a codec: counts the corpus, builds the trie and derives the encoding map. */
    constructor (corpus: string)
      ensures this.corpus == corpus
      ensures Valid()
    {
      var charfreq := CharFrequency(corpus);
      var root := MakeTrie(charfreq);
      assert root == TrieOf(corpus);
      TrainedFacts(corpus);
      encodingMap := map[];
      trie := root;
      this.corpus := corpus;
      new;
      EncodingMap(trie, "");
      EmptyUnion(CodeMap(root));
    }

    /** `char_frequency`: count the corpus, starting from one count for the terminator. */
    static method CharFrequency(text: string) returns (freq: map<char, nat>)
      ensures freq == Frequencies(text)
    {
      freq := map[ETB := 1];
      NothingCounted(text);
      for i := 0 to |text|
        invariant freq == Frequencies(text[..i])
      {
        var c := text[i];
        CountStep(text, i);
        if c in freq {
          freq := freq[c := freq[c] + 1];
        } else {
          freq := freq[c := 1];
        }
      }
      assert text[..|text|] == text;
    }

    /**
     * `make_trie`: queue one leaf per table entry, then repeatedly take out
     * the two least nodes and queue their merge, until one node is left.
     */
    static method MakeTrie(freq: map<char, nat>) returns (root: Node)
      requires freq != map[]
      ensures root == BuildTrie(freq)
    {
      var tree: seq<Node> := [];
      var keys := freq.Keys;
      while keys != {}
        invariant keys <= freq.Keys
        invariant Sorted(tree)
        invariant forall x :: x in tree <==> IsLeafOf(freq, x) && x.symbol !in keys
        decreases keys
      {
        var key :| key in keys;
        var node := Leaf(key, freq[key]);
        forall i | 0 <= i < |tree| ensures tree[i].symbol != key {
          assert tree[i] in tree;
        }
        InsertSorted(tree, node);
        InsertMembers(tree, node);
        tree := Insert(tree, node);
        keys := keys - {key};
      }
      BuildTrieFromQueue(freq, tree);
      while |tree| > 1
        invariant |tree| >= 1 && MergeLoop(tree) == BuildTrie(freq)
        decreases |tree|
      {
        var zeroChild := tree[0];
        var oneChild := tree[1];
        var rest := tree[2..];
        var parent;
        if zeroChild.symbol < oneChild.symbol {
          parent := Internal(zeroChild.symbol, zeroChild.freq + oneChild.freq, zeroChild, oneChild);
        } else {
          parent := Internal(oneChild.symbol, zeroChild.freq + oneChild.freq, zeroChild, oneChild);
        }
        assert parent == Merge(zeroChild, oneChild);
        tree := Insert(rest, parent);
      }
      root := tree[0];
    }

    /** `encoding_map`: record the path `value` + (path below `root`) of every leaf below `root`. */
    method EncodingMap(root: Node, value: string)
      modifies this`encodingMap
      ensures encodingMap == old(encodingMap) + CodeMapFrom(root, value)
      decreases root
    {
      if root.IsLeaf() {
        encodingMap := encodingMap[root.symbol := value];
      } else {
        EncodingMap(root.zeroChild, value + "0");
        EncodingMap(root.oneChild, value + "1");
      }
    }

    /**
     * `get_encoding_map`: the encoding map, a prefix-free code with one
     * 0/1 codeword per corpus character and for the terminator, each
     * leading from the root to that symbol's leaf.
     */
    method GetEncodingMap() returns (m: map<char, string>)
      requires Valid()
      ensures m == encodingMap
      ensures m.Keys == CharsOf(corpus) + {ETB}
      ensures PrefixFree(m)
      ensures forall c | c in m :: IsBitString(m[c]) && LeadsTo(trie, m[c], c)
    {
      m := encodingMap;
      TrieOfFacts(corpus);
      CodeMapPrefixFree(trie);
      forall c | c in m ensures IsBitString(m[c]) && LeadsTo(trie, m[c], c) {
        CodeMapPaths(trie, c);
      }
    }

    /**
     * `compress_message`: the codewords of the message, then the
     * terminator's, then zeros up to the next whole byte (a whole zero byte
     * when the bits already fill their last byte), packed into bytes. A
     * character without a codeword is reported as a key error.
     */
    method CompressMessage(message: string) returns (r: Result<seq<Byte>>)
      requires Valid()
      ensures r.KeyError? <==> !Covers(encodingMap, message)
      ensures r.KeyError? ==>
        exists k | 0 <= k < |message| ::
          message[k] == r.key && message[k] !in encodingMap && Covers(encodingMap, message[..k])
      ensures r.Ok? ==>
        && |r.value| == |EncodedBits(encodingMap, message)| / 8 + 1
        && BytesToBits(r.value) == Padded(EncodedBits(encodingMap, message))
    {
      var compress: string := "";
      for i := 0 to |message|
        invariant Covers(encodingMap, message[..i])
        invariant compress == Codewords(encodingMap, message[..i])
      {
        if message[i] !in encodingMap {
          assert Covers(encodingMap, message[..i]);
          return KeyError(message[i]);
        }
        CodewordsExtend(encodingMap, message, i);
        compress := compress + encodingMap[message[i]];
      }
      assert message[..|message|] == message;
      compress := compress + encodingMap[ETB];
      CodeMapBits(trie);
      CodewordsBits(encodingMap, message);
      var bytes := PackBits(compress);
      r := Ok(bytes);
    }

    /**
     * The packing half of `compress_message`: cut the bits into whole
     * bytes, pad the remaining bits (possibly none) with zeros to a byte,
     * and convert every byte string to its value.
     */
    static method PackBits(compress: string) returns (bytes: seq<Byte>)
      requires IsBitString(compress)
      ensures |bytes| == |compress| / 8 + 1
      ensures BytesToBits(bytes) == Padded(compress)
    {
      var length := |compress| / 8;
      WholeBytes(|compress|);
      var data := SliceWhole(compress, length);
      var remaining := compress[length * 8..];
      var num3 := 8 - |remaining|;
      ghost var full := data;
      data := PadLast(data, remaining, num3);
      PadLayout(compress, full, length * 8, num3, data);
      bytes := BitstringsToBytes(data);
      assert Padded(compress) == compress + Zeros(num3);
    }

    /** The slicing loop of `compress_message`: the first `length` whole bytes of `compress`. */
    static method SliceWhole(compress: string, length: nat) returns (data: seq<string>)
      requires IsBitString(compress) && length * 8 <= |compress|
      ensures |data| == length
      ensures forall k | 0 <= k < |data| :: IsOctet(data[k])
      ensures Concat(data) == compress[..length * 8]
    {
      data := [];
      var i := 0;
      while i < length * 8
        invariant i == |data| * 8 <= length * 8
        invariant forall k | 0 <= k < |data| :: IsOctet(data[k])
        invariant Concat(data) == compress[..i]
      {
        SliceStep(compress, data, i);
        data := data + [compress[i..i + 8]];
        i := i + 8;
      }
    }

    /**
     * The padding loop of `compress_message`: append the remaining bits as
     * the last byte string, then add a zero to it `num3` times.
     */
    static method PadLast(full: seq<string>, remaining: string, num3: nat) returns (data: seq<string>)
      ensures data == full + [remaining + Zeros(num3)]
    {
      data := full + [remaining];
      assert remaining + Zeros(0) == remaining;
      var num4 := 0;
      while num4 < num3
        invariant 0 <= num4 <= num3
        invariant data == full + [remaining + Zeros(num4)]
      {
        PadStep(full, remaining, num4);
        data := data[|full| := data[|full|] + "0"];
        num4 := num4 + 1;
      }
    }

    /**
     * `decompress`: expand the bytes to bits and walk the trie from the
     * root; the result is the text decoded when the terminator's leaf is
     * reached, or when the bits run out.
     */
    method Decompress(compressedMsg: seq<Byte>) returns (r: string)
      requires Valid()
      ensures r == Decode(trie, BytesToBits(compressedMsg))
    {
      var message: string := "";
      for i := 0 to |compressedMsg|
        invariant message == BytesToBits(compressedMsg[..i])
      {
        ExpandStep(compressedMsg, i);
        message := message + ByteToBitstring(compressedMsg[i]);
      }
      assert compressedMsg[..|compressedMsg|] == compressedMsg;
      r := WalkTrie(trie, message);
    }

    /**
     * The decoding half of `decompress`: walk the bits from the root; at a
     * leaf, stop if it is the terminator's and otherwise emit its symbol
     * and restart from the root, before the bit selects a child.
     */
    static method WalkTrie(root: Node, message: string) returns (mesg: string)
      requires RootDecodable(root)
      ensures mesg == Decode(root, message)
    {
      mesg := "";
      var curr := root;
      assert Within(curr, root);
      for k := 0 to |message|
        invariant Within(curr, root)
        invariant DecodeFrom(root, curr, message[k..], mesg) == Decode(root, message)
      {
        ghost var bits, before, text := message[k..], curr, mesg;
        assert bits[0] == message[k] && bits[1..] == message[k + 1..];
        if curr.IsLeaf() {
          if curr.symbol == ETB {
            return mesg;
          }
          mesg := mesg + [curr.symbol];
          curr := root;
        }
        DecodeStep(root, before, bits, text);
        if message[k] == '1' {
          curr := curr.oneChild;
        } else {
          curr := curr.zeroChild;
        }
      }
      assert message[|message|..] == [];
    }
  }

  /** Decoding the padded bits of a terminator-free message gives the message back. */
  lemma PaddedRoundTrip(root: Node, message: string, compressed: seq<Byte>)
    requires RootDecodable(root) && ETB in Symbols(root)
    requires Covers(CodeMap(root), message)
    requires forall i | 0 <= i < |message| :: message[i] != ETB
    requires BytesToBits(compressed) == Padded(EncodedBits(CodeMap(root), message))
    ensures Decode(root, BytesToBits(compressed)) == message
  {
    var code := CodeMap(root);
    PaddedParts(code, message);
    DecodeRoundTrip(root, message, Zeros(8 - |EncodedBits(code, message)| % 8));
  }

  lemma PaddedParts(code: map<char, string>, message: string)
    requires Covers(code, message) && ETB in code
    ensures Padded(EncodedBits(code, message))
         == Codewords(code, message) + code[ETB] + Zeros(8 - |EncodedBits(code, message)| % 8)
  {
  }

  /** Expanding a buffer expands its parts in order. */
  lemma {:induction false} BytesToBitsAppend(a: seq<Byte>, b: seq<Byte>)
    ensures BytesToBits(a + b) == BytesToBits(a) + BytesToBits(b)
    decreases |b|
  {
    if b != [] {
      var b', last := b[..|b| - 1], b[|b| - 1];
      assert (a + b)[..|a + b| - 1] == a + b' && (a + b)[|a + b| - 1] == last;
      BytesToBitsAppend(a, b');
      var x, y, z := BytesToBits(a), BytesToBits(b'), ByteToBitstring(last);
      assert BytesToBits(a + b) == x + y + z;
      assert BytesToBits(b) == y + z;
      Associative(x, y, z);
    } else {
      assert a + b == a;
    }
  }

  lemma AppendedBits(bits: string, compressed: seq<Byte>, extra: seq<Byte>)
    requires BytesToBits(compressed) == Padded(bits)
    ensures BytesToBits(compressed + extra) == bits + (Zeros(8 - |bits| % 8) + BytesToBits(extra))
  {
    BytesToBitsAppend(compressed, extra);
    PaddedThen(bits, BytesToBits(extra));
  }

  lemma PaddedThen(bits: string, more: string)
    ensures Padded(bits) + more == bits + (Zeros(8 - |bits| % 8) + more)
  {
    var padding := Zeros(8 - |bits| % 8);
    assert bits + padding + more == bits + (padding + more);
  }

  /** Bytes appended after a compressed message are never read: decoding stops at the terminator. */
  lemma TrailingBytesIgnored(root: Node, message: string, compressed: seq<Byte>, extra: seq<Byte>)
    requires RootDecodable(root) && ETB in Symbols(root)
    requires Covers(CodeMap(root), message)
    requires forall i | 0 <= i < |message| :: message[i] != ETB
    requires BytesToBits(compressed) == Padded(EncodedBits(CodeMap(root), message))
    ensures Decode(root, BytesToBits(compressed + extra)) == message
  {
    var code := CodeMap(root);
    var bits := EncodedBits(code, message);
    AppendedBits(bits, compressed, extra);
    DecodeRoundTrip(root, message, Zeros(8 - |bits| % 8) + BytesToBits(extra));
  }

  /** A trained codec gives back every terminator-free message over its corpus's characters. */
  lemma CodecRoundTrip(corpus: string, message: string, compressed: seq<Byte>)
    requires forall i | 0 <= i < |message| :: message[i] in CharsOf(corpus) && message[i] != ETB
    requires Covers(CodeMap(TrieOf(corpus)), message)
    requires ETB in CodeMap(TrieOf(corpus))
    requires BytesToBits(compressed) == Padded(EncodedBits(CodeMap(TrieOf(corpus)), message))
    ensures RootDecodable(TrieOf(corpus))
    ensures Decode(TrieOf(corpus), BytesToBits(compressed)) == message
  {
    TrieOfFacts(corpus);
    PaddedRoundTrip(TrieOf(corpus), message, compressed);
  }

  /** Compressing with a trained codec and decompressing the output gives the message back. */
  method CompressThenDecompress(codec: ReusableHuffman, message: string) returns (back: string)
    requires codec.Valid()
    requires forall i | 0 <= i < |message| :: message[i] in CharsOf(codec.corpus) && message[i] != ETB
    ensures back == message
  {
    ghost var corpus := codec.corpus;
    ghost var code := codec.encodingMap;
    TrieOfFacts(corpus);
    assert code.Keys == CharsOf(corpus) + {ETB};
    assert Covers(code, message);
    var compressed := codec.CompressMessage(message);
    CodecRoundTrip(corpus, message, compressed.value);
    back := codec.Decompress(compressed.value);
  }
}
