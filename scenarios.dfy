/**
 * The concrete corpora and messages of the codec's unit tests: the codebooks
 * trained on "A", "AB" and "ABBBCC", the bytes their messages compress to,
 * and what those bytes decompress to; and what the code does with a byte
 * that never reaches the terminator; and the docstring examples of the byte
 * helpers.
 *
 * Many lemmas here take a parameter that a `requires` fixes to a literal
 * (`requires bits == "10"`) instead of stating the literal fact without
 * parameters. The parameter only steers the solver: it keeps the literal
 * from being unfolded eagerly wherever it appears, which keeps these
 * proofs small. Each such lemma states exactly the fact about that literal.
 */
module Scenarios {
  import opened ByteUtils
  import opened Huffman
  import opened Codes
  import opened CompressionUtils

  // ---------------------------------------------------------------------------
  // Tries

  /** The trie trained on "A": the terminator and 'A' merged once. */
  lemma TrieOfA()
    ensures TrieOf("A") == Internal(ETB, 2, Leaf(ETB, 1), Leaf('A', 1))
  {
    var freq := Frequencies("A");
    assert CharsOf("A") == {'A'};
    assert freq == map[ETB := 1, 'A' := 1];
    var q := [Leaf(ETB, 1), Leaf('A', 1)];
    forall x ensures x in q <==> IsLeafOf(freq, x) {
    }
    BuildTrieFromQueue(freq, q);
    var t := Internal(ETB, 2, Leaf(ETB, 1), Leaf('A', 1));
    assert q[2..] == [];
    assert Insert([], t) == [t];
    assert MergeLoop(q) == MergeLoop([t]);
  }

  lemma CodeMapOfA()
    ensures CodeMap(TrieOf("A")) == map[ETB := "0", 'A' := "1"]
  {
    TrieOfA();
    PathsOfA(TrieOf("A"));
  }

  lemma PathsOfA(t: Node)
    requires t == Internal(ETB, 2, Leaf(ETB, 1), Leaf('A', 1))
    ensures CodeMap(t) == map[ETB := "0", 'A' := "1"]
  {
    assert "" + "0" == "0" && "" + "1" == "1";
    assert CodeMap(t) == map[ETB := "0"] + map['A' := "1"];
  }

  /** The trie trained on "AB": 'B' merged with the merge of the terminator and 'A'. */
  lemma TrieOfAB()
    ensures TrieOf("AB") == Internal(ETB, 3, Leaf('B', 1), Internal(ETB, 2, Leaf(ETB, 1), Leaf('A', 1)))
  {
    assert CharsOf("AB") == {'A', 'B'};
    assert multiset("AB") == multiset{'A', 'B'};
    var freq := Frequencies("AB");
    assert freq == map[ETB := 1, 'A' := 1, 'B' := 1];
    MergesOfAB(freq, [Leaf(ETB, 1), Leaf('A', 1), Leaf('B', 1)]);
  }

  lemma MergesOfAB(freq: map<char, nat>, q: seq<Node>)
    requires freq == map[ETB := 1, 'A' := 1, 'B' := 1]
    requires q == [Leaf(ETB, 1), Leaf('A', 1), Leaf('B', 1)]
    ensures freq != map[]
    ensures BuildTrie(freq) == Internal(ETB, 3, Leaf('B', 1), Internal(ETB, 2, Leaf(ETB, 1), Leaf('A', 1)))
  {
    assert ETB in freq;
    forall x ensures x in q <==> IsLeafOf(freq, x) {
    }
    BuildTrieFromQueue(freq, q);
    RunOfAB(q);
  }

  /** The merge loop on the leaves of "AB", one merge at a time. */
  lemma RunOfAB(q: seq<Node>)
    requires q == [Leaf(ETB, 1), Leaf('A', 1), Leaf('B', 1)]
    ensures MergeLoop(q) == Internal(ETB, 3, Leaf('B', 1), Internal(ETB, 2, Leaf(ETB, 1), Leaf('A', 1)))
  {
    var x := Internal(ETB, 2, Leaf(ETB, 1), Leaf('A', 1));
    assert q[2..] == [Leaf('B', 1)];
    var q1 := [Leaf('B', 1), x];
    assert Insert([Leaf('B', 1)], x) == q1;
    assert MergeLoop(q) == MergeLoop(q1);
    var t := Internal(ETB, 3, Leaf('B', 1), x);
    assert q1[2..] == [];
    assert Insert([], t) == [t];
    assert MergeLoop(q1) == MergeLoop([t]);
  }

  lemma CodeMapOfAB()
    ensures CodeMap(TrieOf("AB")) == map[ETB := "10", 'A' := "11", 'B' := "0"]
  {
    TrieOfAB();
    PathsOfAB(TrieOf("AB"));
  }

  lemma PathsOfAB(t: Node)
    requires t == Internal(ETB, 3, Leaf('B', 1), Internal(ETB, 2, Leaf(ETB, 1), Leaf('A', 1)))
    ensures CodeMap(t) == map[ETB := "10", 'A' := "11", 'B' := "0"]
  {
    var x := Internal(ETB, 2, Leaf(ETB, 1), Leaf('A', 1));
    assert "" + "1" == "1" && "" + "0" == "0";
    assert "1" + "0" == "10" && "1" + "1" == "11";
    assert CodeMapFrom(x, "1") == map[ETB := "10"] + map['A' := "11"];
    assert CodeMap(t) == map['B' := "0"] + CodeMapFrom(x, "1");
  }

  /** The trie trained on "ABBBCC". */
  lemma TrieOfABBBCC()
    ensures TrieOf("ABBBCC")
         == Internal(ETB, 7, Leaf('B', 3), Internal(ETB, 4, Internal(ETB, 2, Leaf(ETB, 1), Leaf('A', 1)), Leaf('C', 2)))
  {
    FrequenciesOfABBBCC();
    MergesOfABBBCC(Frequencies("ABBBCC"), [Leaf(ETB, 1), Leaf('A', 1), Leaf('C', 2), Leaf('B', 3)]);
  }

  /** The table counted from "ABBBCC". */
  lemma FrequenciesOfABBBCC()
    ensures Frequencies("ABBBCC") == map[ETB := 1, 'A' := 1, 'B' := 3, 'C' := 2]
  {
    var m := multiset("ABBBCC");
    assert CharsOf("ABBBCC") == {'A', 'B', 'C'};
    assert m == multiset{'A', 'B', 'B', 'B', 'C', 'C'};
    assert m[ETB] == 0 && m['A'] == 1 && m['B'] == 3 && m['C'] == 2;
  }

  lemma MergesOfABBBCC(freq: map<char, nat>, q: seq<Node>)
    requires freq == map[ETB := 1, 'A' := 1, 'B' := 3, 'C' := 2]
    requires q == [Leaf(ETB, 1), Leaf('A', 1), Leaf('C', 2), Leaf('B', 3)]
    ensures freq != map[]
    ensures BuildTrie(freq)
         == Internal(ETB, 7, Leaf('B', 3), Internal(ETB, 4, Internal(ETB, 2, Leaf(ETB, 1), Leaf('A', 1)), Leaf('C', 2)))
  {
    assert ETB in freq;
    forall x ensures x in q <==> IsLeafOf(freq, x) {
    }
    BuildTrieFromQueue(freq, q);
    RunOfABBBCC(q);
  }

  /** The merge loop on the leaves of "ABBBCC", one merge at a time. */
  lemma RunOfABBBCC(q: seq<Node>)
    requires q == [Leaf(ETB, 1), Leaf('A', 1), Leaf('C', 2), Leaf('B', 3)]
    ensures MergeLoop(q)
         == Internal(ETB, 7, Leaf('B', 3), Internal(ETB, 4, Internal(ETB, 2, Leaf(ETB, 1), Leaf('A', 1)), Leaf('C', 2)))
  {
    var x := Internal(ETB, 2, Leaf(ETB, 1), Leaf('A', 1));
    assert q[2..] == [Leaf('C', 2), Leaf('B', 3)];
    var q1 := [x, Leaf('C', 2), Leaf('B', 3)];
    assert Insert([Leaf('C', 2), Leaf('B', 3)], x) == q1;
    assert MergeLoop(q) == MergeLoop(q1);
    var y := Internal(ETB, 4, x, Leaf('C', 2));
    assert q1[2..] == [Leaf('B', 3)];
    var q2 := [Leaf('B', 3), y];
    assert Insert([Leaf('B', 3)], y) == q2;
    assert MergeLoop(q1) == MergeLoop(q2);
    var t := Internal(ETB, 7, Leaf('B', 3), y);
    assert q2[2..] == [];
    assert Insert([], t) == [t];
    assert MergeLoop(q2) == MergeLoop([t]);
  }

  lemma CodeMapOfABBBCC()
    ensures CodeMap(TrieOf("ABBBCC")) == map[ETB := "100", 'A' := "101", 'B' := "0", 'C' := "11"]
  {
    TrieOfABBBCC();
    PathsOfABBBCC(TrieOf("ABBBCC"));
  }

  lemma PathsOfABBBCC(t: Node)
    requires t == Internal(ETB, 7, Leaf('B', 3), Internal(ETB, 4, Internal(ETB, 2, Leaf(ETB, 1), Leaf('A', 1)), Leaf('C', 2)))
    ensures CodeMap(t) == map[ETB := "100", 'A' := "101", 'B' := "0", 'C' := "11"]
  {
    var x := Internal(ETB, 2, Leaf(ETB, 1), Leaf('A', 1));
    var y := Internal(ETB, 4, x, Leaf('C', 2));
    assert "" + "1" == "1" && "" + "0" == "0";
    assert "1" + "0" == "10" && "1" + "1" == "11";
    assert "10" + "0" == "100" && "10" + "1" == "101";
    assert CodeMapFrom(x, "10") == map[ETB := "100"] + map['A' := "101"];
    assert CodeMapFrom(y, "1") == CodeMapFrom(x, "10") + map['C' := "11"];
    assert CodeMap(t) == map['B' := "0"] + CodeMapFrom(y, "1");
  }

  /** The trie trained on the empty corpus: the terminator's leaf alone, coded by the empty path. */
  lemma TrieOfEmpty()
    ensures TrieOf("") == Leaf(ETB, 1)
    ensures CodeMap(TrieOf("")) == map[ETB := ""]
  {
    assert CharsOf("") == {};
    assert Frequencies("") == map[ETB := 1];
    BuildTrieSingle(map[ETB := 1], ETB, 1);
  }

  // ---------------------------------------------------------------------------
  // Constructor tests: the encoding map a codec hands out

  method ConstructorA() returns (m: map<char, string>)
    ensures m == map[ETB := "0", 'A' := "1"]
  {
    var codec := new ReusableHuffman("A");
    m := codec.GetEncodingMap();
    CodeMapOfA();
  }

  method ConstructorAB() returns (m: map<char, string>)
    ensures m == map[ETB := "10", 'A' := "11", 'B' := "0"]
  {
    var codec := new ReusableHuffman("AB");
    m := codec.GetEncodingMap();
    CodeMapOfAB();
  }

  method ConstructorABBBCC() returns (m: map<char, string>)
    ensures m == map[ETB := "100", 'A' := "101", 'B' := "0", 'C' := "11"]
  {
    var codec := new ReusableHuffman("ABBBCC");
    m := codec.GetEncodingMap();
    CodeMapOfABBBCC();
  }

  // ---------------------------------------------------------------------------
  // Compression tests: the bytes a message compresses to

  lemma CodewordsSnoc(code: map<char, string>, text: string, c: char, longer: string)
    requires longer == text + [c]
    requires Covers(code, longer)
    ensures Covers(code, text) && c in code
    ensures Codewords(code, longer) == Codewords(code, text) + code[c]
  {
    assert longer[..|text|] == text;
    assert longer[|text|] == c;
  }

  lemma EncodedA(code: map<char, string>)
    requires code == map[ETB := "0", 'A' := "1"]
    ensures Covers(code, "A") && ETB in code
    ensures EncodedBits(code, "A") == "10"
  {
    CodewordsSnoc(code, "", 'A', "A");
  }

  lemma EncodedAB(code: map<char, string>)
    requires code == map[ETB := "10", 'A' := "11", 'B' := "0"]
    ensures Covers(code, "AB") && ETB in code
    ensures EncodedBits(code, "AB") == "11010"
  {
    CodewordsSnoc(code, "", 'A', "A");
    CodewordsSnoc(code, "A", 'B', "AB");
  }

  lemma EncodedBA(code: map<char, string>)
    requires code == map[ETB := "10", 'A' := "11", 'B' := "0"]
    ensures Covers(code, "BA") && ETB in code
    ensures EncodedBits(code, "BA") == "01110"
  {
    CodewordsSnoc(code, "", 'B', "B");
    CodewordsSnoc(code, "B", 'A', "BA");
  }

  lemma EncodedABBBCC(code: map<char, string>)
    requires code == map[ETB := "100", 'A' := "101", 'B' := "0", 'C' := "11"]
    ensures Covers(code, "ABBBCC") && ETB in code
    ensures EncodedBits(code, "ABBBCC") == "1010001111100"
  {
    CodewordsOfABBB(code);
    CodewordsSnoc(code, "ABBB", 'C', "ABBBC");
    CodewordsSnoc(code, "ABBBC", 'C', "ABBBCC");
  }

  lemma CodewordsOfABBB(code: map<char, string>)
    requires code == map[ETB := "100", 'A' := "101", 'B' := "0", 'C' := "11"]
    ensures Covers(code, "ABBB") && Codewords(code, "ABBB") == "101000"
  {
    CodewordsSnoc(code, "", 'A', "A");
    CodewordsSnoc(code, "A", 'B', "AB");
    CodewordsSnoc(code, "AB", 'B', "ABB");
    CodewordsSnoc(code, "ABB", 'B', "ABBB");
  }

  lemma CodewordsOfBAB(code: map<char, string>)
    requires code == map[ETB := "100", 'A' := "101", 'B' := "0", 'C' := "11"]
    ensures Covers(code, "BAB") && Codewords(code, "BAB") == "01010"
  {
    CodewordsSnoc(code, "", 'B', "B");
    CodewordsSnoc(code, "B", 'A', "BA");
    CodewordsSnoc(code, "BA", 'B', "BAB");
  }

  lemma EncodedBABCBC(code: map<char, string>)
    requires code == map[ETB := "100", 'A' := "101", 'B' := "0", 'C' := "11"]
    ensures Covers(code, "BABCBC") && ETB in code
    ensures EncodedBits(code, "BABCBC") == "0101011011100"
  {
    CodewordsOfBAB(code);
    CodewordsSnoc(code, "BAB", 'C', "BABC");
    CodewordsSnoc(code, "BABC", 'B', "BABCB");
    assert Codewords(code, "BABCB") == "01010110";
    CodewordsSnoc(code, "BABCB", 'C', "BABCBC");
  }

  lemma SixZeros()
    ensures Zeros(6) == "000000"
  {
  }

  lemma ThreeZeros()
    ensures Zeros(3) == "000"
  {
  }

  lemma IsOctetOf(s: string)
    requires |s| == 8
    requires s[0] in "01" && s[1] in "01" && s[2] in "01" && s[3] in "01"
    requires s[4] in "01" && s[5] in "01" && s[6] in "01" && s[7] in "01"
    ensures IsOctet(s)
  {
  }

  /** The padded bits "10" + "000000" are the octets ["10000000"]. */
  lemma LayoutA(bits: string, bitstrings: seq<string>)
    requires bits == "10" && bitstrings == ["10000000"]
    ensures forall i | 0 <= i < |bitstrings| :: IsOctet(bitstrings[i])
    ensures Concat(bitstrings) == Padded(bits)
  {
    IsOctetOf("10000000");
    PaddedLiteralA(bits);
    OneOctet("10000000");
  }

  lemma PaddedLiteralA(bits: string)
    requires bits == "10"
    ensures Padded(bits) == "10000000"
  {
    SixZeros();
    assert Padded(bits) == bits + "000000";
  }

  /** The padded bits "11010" + "000" are the octets ["11010000"]. */
  lemma LayoutAB(bits: string, bitstrings: seq<string>)
    requires bits == "11010" && bitstrings == ["11010000"]
    ensures forall i | 0 <= i < |bitstrings| :: IsOctet(bitstrings[i])
    ensures Concat(bitstrings) == Padded(bits)
  {
    IsOctetOf("11010000");
    PaddedLiteralAB(bits);
    OneOctet("11010000");
  }

  lemma PaddedLiteralAB(bits: string)
    requires bits == "11010"
    ensures Padded(bits) == "11010000"
  {
    ThreeZeros();
    assert Padded(bits) == bits + "000";
  }

  /** The padded bits "01110" + "000" are the octets ["01110000"]. */
  lemma LayoutBA(bits: string, bitstrings: seq<string>)
    requires bits == "01110" && bitstrings == ["01110000"]
    ensures forall i | 0 <= i < |bitstrings| :: IsOctet(bitstrings[i])
    ensures Concat(bitstrings) == Padded(bits)
  {
    IsOctetOf("01110000");
    PaddedLiteralBA(bits);
    OneOctet("01110000");
  }

  lemma PaddedLiteralBA(bits: string)
    requires bits == "01110"
    ensures Padded(bits) == "01110000"
  {
    ThreeZeros();
    assert Padded(bits) == bits + "000";
  }

  /** The padded bits "1010001111100" + "000" are the octets ["10100011", "11100000"]. */
  lemma LayoutABBBCC(bits: string, bitstrings: seq<string>)
    requires bits == "1010001111100" && bitstrings == ["10100011", "11100000"]
    ensures forall i | 0 <= i < |bitstrings| :: IsOctet(bitstrings[i])
    ensures Concat(bitstrings) == Padded(bits)
  {
    IsOctetOf("10100011");
    IsOctetOf("11100000");
    PaddedLiteralABBBCC(bits);
    TwoOctets("10100011", "11100000");
  }

  lemma PaddedLiteralABBBCC(bits: string)
    requires bits == "1010001111100"
    ensures Padded(bits) == "10100011" + "11100000"
  {
    ThreeZeros();
    assert Padded(bits) == bits + "000";
  }

  /** The padded bits "0101011011100" + "000" are the octets ["01010110", "11100000"]. */
  lemma LayoutBABCBC(bits: string, bitstrings: seq<string>)
    requires bits == "0101011011100" && bitstrings == ["01010110", "11100000"]
    ensures forall i | 0 <= i < |bitstrings| :: IsOctet(bitstrings[i])
    ensures Concat(bitstrings) == Padded(bits)
  {
    IsOctetOf("01010110");
    IsOctetOf("11100000");
    PaddedLiteralBABCBC(bits);
    TwoOctets("01010110", "11100000");
  }

  lemma PaddedLiteralBABCBC(bits: string)
    requires bits == "0101011011100"
    ensures Padded(bits) == "01010110" + "11100000"
  {
    ThreeZeros();
    assert Padded(bits) == bits + "000";
  }

  /** A one-element list of an octet: its elements are octets and its concatenation is that octet. */
  lemma OneOctet(x: string)
    requires IsOctet(x)
    ensures forall i | 0 <= i < |[x]| :: IsOctet([x][i])
    ensures Concat([x]) == x
  {
    assert [x][..0] == [];
  }

  /** A two-element list of octets: its elements are octets and its concatenation is the two in order. */
  lemma TwoOctets(x: string, y: string)
    requires IsOctet(x) && IsOctet(y)
    ensures forall i | 0 <= i < |[x, y]| :: IsOctet([x, y][i])
    ensures Concat([x, y]) == x + y
  {
    assert [x, y][..1] == [x];
    OneOctet(x);
  }

  /** Bytes whose bits are the padded `bits` are the bytes the octets of the padded bits pack to. */
  lemma CompressedBytes(compressed: seq<Byte>, bits: string, bitstrings: seq<string>)
    requires forall i | 0 <= i < |bitstrings| :: IsOctet(bitstrings[i])
    requires Concat(bitstrings) == Padded(bits)
    requires BytesToBits(compressed) == Padded(bits)
    ensures compressed == BitstringsToBytes(bitstrings)
  {
    PackThenExpand(bitstrings);
    BytesToBitsInjective(compressed, BitstringsToBytes(bitstrings));
  }

  method CompressionA() returns (r: Result<seq<Byte>>)
    ensures r == Ok(BitstringsToBytes(["10000000"]))
  {
    var codec := new ReusableHuffman("A");
    CodeMapOfA();
    EncodedA(codec.encodingMap);
    r := codec.CompressMessage("A");
    LayoutA("10", ["10000000"]);
    CompressedBytes(r.value, "10", ["10000000"]);
  }

  method CompressionAB() returns (r: Result<seq<Byte>>)
    ensures r == Ok(BitstringsToBytes(["11010000"]))
  {
    var codec := new ReusableHuffman("AB");
    CodeMapOfAB();
    EncodedAB(codec.encodingMap);
    r := codec.CompressMessage("AB");
    LayoutAB("11010", ["11010000"]);
    CompressedBytes(r.value, "11010", ["11010000"]);
  }

  method CompressionBA() returns (r: Result<seq<Byte>>)
    ensures r == Ok(BitstringsToBytes(["01110000"]))
  {
    var codec := new ReusableHuffman("AB");
    CodeMapOfAB();
    EncodedBA(codec.encodingMap);
    r := codec.CompressMessage("BA");
    LayoutBA("01110", ["01110000"]);
    CompressedBytes(r.value, "01110", ["01110000"]);
  }

  method CompressionABBBCC() returns (r: Result<seq<Byte>>)
    ensures r == Ok(BitstringsToBytes(["10100011", "11100000"]))
  {
    var codec := new ReusableHuffman("ABBBCC");
    CodeMapOfABBBCC();
    EncodedABBBCC(codec.encodingMap);
    r := codec.CompressMessage("ABBBCC");
    LayoutABBBCC("1010001111100", ["10100011", "11100000"]);
    CompressedBytes(r.value, "1010001111100", ["10100011", "11100000"]);
  }

  method CompressionBABCBC() returns (r: Result<seq<Byte>>)
    ensures r == Ok(BitstringsToBytes(["01010110", "11100000"]))
  {
    var codec := new ReusableHuffman("ABBBCC");
    CodeMapOfABBBCC();
    EncodedBABCBC(codec.encodingMap);
    r := codec.CompressMessage("BABCBC");
    LayoutBABCBC("0101011011100", ["01010110", "11100000"]);
    CompressedBytes(r.value, "0101011011100", ["01010110", "11100000"]);
  }

  // ---------------------------------------------------------------------------
  // Decompression tests: the text bytes decompress to

  /** The bytes of the "A" compression test decode to "A" on any trie with the "A" codebook. */
  lemma DecodesA(root: Node, compressed: seq<Byte>)
    requires RootDecodable(root) && ETB in Symbols(root)
    requires CodeMap(root) == map[ETB := "0", 'A' := "1"]
    requires compressed == BitstringsToBytes(["10000000"])
    ensures Decode(root, BytesToBits(compressed)) == "A"
  {
    EncodedA(CodeMap(root));
    LayoutA("10", ["10000000"]);
    PackThenExpand(["10000000"]);
    PaddedRoundTrip(root, "A", compressed);
  }

  method DecompressionA() returns (text: string)
    ensures text == "A"
  {
    var codec := new ReusableHuffman("A");
    LayoutA("10", ["10000000"]);
    var compressed := BitstringsToBytes(["10000000"]);
    CodeMapOfA();
    DecodesA(codec.trie, compressed);
    text := codec.Decompress(compressed);
  }

  /** The bytes of the "AB" compression test decode to "AB" on any trie with the "AB" codebook. */
  lemma DecodesAB(root: Node, compressed: seq<Byte>)
    requires RootDecodable(root) && ETB in Symbols(root)
    requires CodeMap(root) == map[ETB := "10", 'A' := "11", 'B' := "0"]
    requires compressed == BitstringsToBytes(["11010000"])
    ensures Decode(root, BytesToBits(compressed)) == "AB"
  {
    EncodedAB(CodeMap(root));
    LayoutAB("11010", ["11010000"]);
    PackThenExpand(["11010000"]);
    PaddedRoundTrip(root, "AB", compressed);
  }

  method DecompressionAB() returns (text: string)
    ensures text == "AB"
  {
    var codec := new ReusableHuffman("AB");
    LayoutAB("11010", ["11010000"]);
    var compressed := BitstringsToBytes(["11010000"]);
    CodeMapOfAB();
    DecodesAB(codec.trie, compressed);
    text := codec.Decompress(compressed);
  }

  /** The bytes of the "BA" compression test decode to "BA" on any trie with the "AB" codebook. */
  lemma DecodesBA(root: Node, compressed: seq<Byte>)
    requires RootDecodable(root) && ETB in Symbols(root)
    requires CodeMap(root) == map[ETB := "10", 'A' := "11", 'B' := "0"]
    requires compressed == BitstringsToBytes(["01110000"])
    ensures Decode(root, BytesToBits(compressed)) == "BA"
  {
    EncodedBA(CodeMap(root));
    LayoutBA("01110", ["01110000"]);
    PackThenExpand(["01110000"]);
    PaddedRoundTrip(root, "BA", compressed);
  }

  method DecompressionBA() returns (text: string)
    ensures text == "BA"
  {
    var codec := new ReusableHuffman("AB");
    LayoutBA("01110", ["01110000"]);
    var compressed := BitstringsToBytes(["01110000"]);
    CodeMapOfAB();
    DecodesBA(codec.trie, compressed);
    text := codec.Decompress(compressed);
  }

  /** The bytes of the "ABBBCC" compression test decode to "ABBBCC" on any trie with the "ABBBCC" codebook. */
  lemma DecodesABBBCC(root: Node, compressed: seq<Byte>)
    requires RootDecodable(root) && ETB in Symbols(root)
    requires CodeMap(root) == map[ETB := "100", 'A' := "101", 'B' := "0", 'C' := "11"]
    requires compressed == BitstringsToBytes(["10100011", "11100000"])
    ensures Decode(root, BytesToBits(compressed)) == "ABBBCC"
  {
    EncodedABBBCC(CodeMap(root));
    LayoutABBBCC("1010001111100", ["10100011", "11100000"]);
    PackThenExpand(["10100011", "11100000"]);
    PaddedRoundTrip(root, "ABBBCC", compressed);
  }

  method DecompressionABBBCC() returns (text: string)
    ensures text == "ABBBCC"
  {
    var codec := new ReusableHuffman("ABBBCC");
    LayoutABBBCC("1010001111100", ["10100011", "11100000"]);
    var compressed := BitstringsToBytes(["10100011", "11100000"]);
    CodeMapOfABBBCC();
    DecodesABBBCC(codec.trie, compressed);
    text := codec.Decompress(compressed);
  }

  /** The bytes of the "BABCBC" compression test decode to "BABCBC" on any trie with the "ABBBCC" codebook. */
  lemma DecodesBABCBC(root: Node, compressed: seq<Byte>)
    requires RootDecodable(root) && ETB in Symbols(root)
    requires CodeMap(root) == map[ETB := "100", 'A' := "101", 'B' := "0", 'C' := "11"]
    requires compressed == BitstringsToBytes(["01010110", "11100000"])
    ensures Decode(root, BytesToBits(compressed)) == "BABCBC"
  {
    EncodedBABCBC(CodeMap(root));
    LayoutBABCBC("0101011011100", ["01010110", "11100000"]);
    PackThenExpand(["01010110", "11100000"]);
    PaddedRoundTrip(root, "BABCBC", compressed);
  }

  method DecompressionBABCBC() returns (text: string)
    ensures text == "BABCBC"
  {
    var codec := new ReusableHuffman("ABBBCC");
    LayoutBABCBC("0101011011100", ["01010110", "11100000"]);
    var compressed := BitstringsToBytes(["01010110", "11100000"]);
    CodeMapOfABBBCC();
    DecodesBABCBC(codec.trie, compressed);
    text := codec.Decompress(compressed);
  }

  // ---------------------------------------------------------------------------
  // A byte that never reaches the terminator

  /**
   * On the "ABBBCC" trie, eight one-bits reach the 'C' leaf four times; the
   * walk emits the first three and runs out of bits on the fourth.
   */
  lemma WalkAllOnes(t: Node, bits: string)
    requires t == Internal(ETB, 7, Leaf('B', 3), Internal(ETB, 4, Internal(ETB, 2, Leaf(ETB, 1), Leaf('A', 1)), Leaf('C', 2)))
    requires bits == "11111111"
    ensures RootDecodable(t)
    ensures Decode(t, bits) == "CCC"
  {
    var y := t.oneChild;
    var c := y.oneChild;
    assert Within(t, t) && Within(y, t) && Within(c, t);
    assert "" + ['C'] == "C";
    forall k | 0 <= k < 4 ensures bits[k..][0] == '1' && bits[k..][1..] == bits[k + 1..] {
    }
    WalkAllOnesTail(t, bits);
    assert DecodeFrom(t, y, bits[3..], "C") == "CCC";
    assert DecodeFrom(t, c, bits[2..], "") == "CCC";
    assert DecodeFrom(t, y, bits[1..], "") == "CCC";
    assert DecodeFrom(t, t, bits, "") == "CCC";
  }

  /** The second half of the walk: from the first 'C' leaf, the last four one-bits emit two more 'C's and stop on a third. */
  lemma WalkAllOnesTail(t: Node, bits: string)
    requires t == Internal(ETB, 7, Leaf('B', 3), Internal(ETB, 4, Internal(ETB, 2, Leaf(ETB, 1), Leaf('A', 1)), Leaf('C', 2)))
    requires bits == "11111111"
    ensures RootDecodable(t) && Within(t.oneChild.oneChild, t)
    ensures DecodeFrom(t, t.oneChild.oneChild, bits[4..], "C") == "CCC"
  {
    var y := t.oneChild;
    var c := y.oneChild;
    assert Within(t, t) && Within(y, t) && Within(c, t);
    assert "C" + ['C'] == "CC" && "CC" + ['C'] == "CCC";
    forall k | 4 <= k < 8 ensures bits[k..][0] == '1' && bits[k..][1..] == bits[k + 1..] {
    }
    assert DecodeFrom(t, c, bits[8..], "CCC") == "CCC";
    assert DecodeFrom(t, y, bits[7..], "CCC") == "CCC";
    assert DecodeFrom(t, c, bits[6..], "CC") == "CCC";
    assert DecodeFrom(t, y, bits[5..], "CC") == "CCC";
  }

  lemma AllOnesOctet(s: string)
    requires s == "11111111"
    ensures IsOctet(s)
  {
  }

  lemma ExpandAllOnes(compressed: seq<Byte>)
    requires IsOctet("11111111")
    requires compressed == BitstringsToBytes(["11111111"])
    ensures BytesToBits(compressed) == "11111111"
  {
    assert ["11111111"][..0] == [];
    PackThenExpand(["11111111"]);
  }

  /**
   * A codec trained on the empty corpus sits on the terminator's leaf from
   * the start, so it decompresses any bytes to the empty text.
   */
  method DecompressionEmptyCorpus(compressed: seq<Byte>) returns (text: string)
    ensures text == ""
  {
    var codec := new ReusableHuffman("");
    TrieOfEmpty();
    text := codec.Decompress(compressed);
  }

  /**
   * The single byte 0xFF, which holds no terminator codeword, decompresses
   * to "CCC" on the "ABBBCC" codec: the partial text is returned and no
   * error is raised.
   */
  method DecompressionAllOnes() returns (text: string)
    ensures text == "CCC"
  {
    var codec := new ReusableHuffman("ABBBCC");
    AllOnesOctet("11111111");
    var compressed := BitstringsToBytes(["11111111"]);
    TrieOfABBBCC();
    ExpandAllOnes(compressed);
    WalkAllOnes(codec.trie, "11111111");
    text := codec.Decompress(compressed);
  }

  // ---------------------------------------------------------------------------
  // The docstring examples of the byte helpers

  /** `byte_to_bitstring(0xa2)` is "10100010". */
  lemma ExpandA2(b: Byte)
    requires b == 0xa2
    ensures ByteToBitstring(b) == "10100010"
  {
    IsOctetOf("10100010");
    ValueA2("10100010");
    ToBinaryOfValue("10100010");
  }

  /** `byte_to_bitstring(0x03)` is "00000011". */
  lemma Expand03(b: Byte)
    requires b == 0x03
    ensures ByteToBitstring(b) == "00000011"
  {
    IsOctetOf("00000011");
    Value03("00000011");
    ToBinaryOfValue("00000011");
  }

  /** `bitstrings_to_bytes(['10100011', '11100000'])` is `b'\xa3\xe0'`. */
  lemma PackA3E0(bitstrings: seq<string>)
    requires bitstrings == ["10100011", "11100000"]
    ensures forall i | 0 <= i < |bitstrings| :: IsOctet(bitstrings[i])
    ensures BitstringsToBytes(bitstrings) == [0xa3, 0xe0]
  {
    IsOctetOf("10100011");
    IsOctetOf("11100000");
    TwoOctets("10100011", "11100000");
    ValueA3("10100011");
    ValueE0("11100000");
  }

  /** The value of a bit string with one more digit. */
  lemma ValueSnoc(s: string, d: char, t: string)
    requires t == s + [d]
    ensures BinaryValue(t) == 2 * BinaryValue(s) + (if d == '1' then 1 else 0)
  {
    assert t[..|t| - 1] == s;
  }

  lemma ValueA2(s: string)
    requires s == "10100010"
    ensures BinaryValue(s) == 0xa2
  {
    ValueSnoc("", '1', "1");
    ValueSnoc("1", '0', "10");
    ValueSnoc("10", '1', "101");
    ValueSnoc("101", '0', "1010");
    ValueSnoc("1010", '0', "10100");
    ValueSnoc("10100", '0', "101000");
    ValueSnoc("101000", '1', "1010001");
    ValueSnoc("1010001", '0', s);
  }

  lemma ValueA3(s: string)
    requires s == "10100011"
    ensures BinaryValue(s) == 0xa3
  {
    ValueSnoc("", '1', "1");
    ValueSnoc("1", '0', "10");
    ValueSnoc("10", '1', "101");
    ValueSnoc("101", '0', "1010");
    ValueSnoc("1010", '0', "10100");
    ValueSnoc("10100", '0', "101000");
    ValueSnoc("101000", '1', "1010001");
    ValueSnoc("1010001", '1', s);
  }

  lemma ValueE0(s: string)
    requires s == "11100000"
    ensures BinaryValue(s) == 0xe0
  {
    ValueSnoc("", '1', "1");
    ValueSnoc("1", '1', "11");
    ValueSnoc("11", '1', "111");
    ValueSnoc("111", '0', "1110");
    ValueSnoc("1110", '0', "11100");
    ValueSnoc("11100", '0', "111000");
    ValueSnoc("111000", '0', "1110000");
    ValueSnoc("1110000", '0', s);
  }

  lemma Value03(s: string)
    requires s == "00000011"
    ensures BinaryValue(s) == 0x03
  {
    ValueSnoc("", '0', "0");
    ValueSnoc("0", '0', "00");
    ValueSnoc("00", '0', "000");
    ValueSnoc("000", '0', "0000");
    ValueSnoc("0000", '0', "00000");
    ValueSnoc("00000", '0', "000000");
    ValueSnoc("000000", '1', "0000001");
    ValueSnoc("0000001", '1', s);
  }
}
