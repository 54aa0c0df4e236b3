/**
 * The encoding map derived from a Huffman trie, the codeword concatenation
 * compression starts from, and the bit-by-bit trie walk of decompression,
 * with the properties that tie them together: every codeword leads to its
 * symbol's leaf, no codeword is a prefix of another, and walking the
 * codewords of a message followed by the terminator's gives the message back.
 */
module Codes {
  import opened Huffman
  import opened ByteUtils

  datatype Option<T> = None | Some(value: T)

  // ---------------------------------------------------------------------------
  // Encoding map

  /**
   * The entries `encoding_map(n, prefix)` writes: each leaf's symbol mapped
   * to `prefix` followed by the path from `n` to that leaf. Entries from the
   * one child are written after those from the zero child.
   */
  function CodeMapFrom(n: Node, prefix: string): (m: map<char, string>)
    ensures m.Keys == Symbols(n)
    decreases n
  {
    match n
    case Leaf(c, _) => map[c := prefix]
    case Internal(_, _, z, o) => CodeMapFrom(z, prefix + "0") + CodeMapFrom(o, prefix + "1")
  }

  /** The encoding map of a trie, as the constructor builds it from the root. */
  function CodeMap(root: Node): map<char, string> {
    CodeMapFrom(root, "")
  }

  /** The node reached from `n` by following `path` ('1' to the one child, anything else to the zero child). */
  function Reach(n: Node, path: string): Option<Node>
    decreases |path|
  {
    if path == [] then Some(n)
    else if n.Leaf? then None
    else Reach(if path[0] == '1' then n.oneChild else n.zeroChild, path[1..])
  }

  /** Following `path` from `n` ends exactly at a leaf carrying `c`. */
  predicate LeadsTo(n: Node, path: string, c: char) {
    Reach(n, path).Some? && Reach(n, path).value.Leaf? && Reach(n, path).value.symbol == c
  }

  /** Following `p + q` is following `p`, then `q` from where `p` ended. */
  lemma {:induction false} ReachAppend(n: Node, p: string, q: string)
    ensures Reach(n, p + q) == if Reach(n, p).Some? then Reach(Reach(n, p).value, q) else None
    decreases |p|
  {
    if p == [] {
      assert p + q == q;
    } else if n.Internal? {
      assert (p + q)[0] == p[0] && (p + q)[1..] == p[1..] + q;
      ReachAppend(if p[0] == '1' then n.oneChild else n.zeroChild, p[1..], q);
    }
  }

  /** Each entry of `encoding_map(n, prefix)` is `prefix` followed by a 0/1 path from `n` to that symbol's leaf. */
  lemma {:induction false} CodeMapFromPaths(n: Node, prefix: string, c: char)
    requires c in CodeMapFrom(n, prefix)
    ensures prefix <= CodeMapFrom(n, prefix)[c]
    ensures IsBitString(CodeMapFrom(n, prefix)[c][|prefix|..])
    ensures LeadsTo(n, CodeMapFrom(n, prefix)[c][|prefix|..], c)
    decreases n
  {
    var code := CodeMapFrom(n, prefix)[c];
    match n
    case Leaf(_, _) =>
      assert code[|prefix|..] == [];
    case Internal(_, _, z, o) =>
      var branch := if c in CodeMapFrom(o, prefix + "1") then "1" else "0";
      var child := if branch == "1" then o else z;
      assert code == CodeMapFrom(child, prefix + branch)[c];
      CodeMapFromPaths(child, prefix + branch, c);
      var path := code[|prefix|..];
      assert code[..|prefix| + 1] == prefix + branch;
      assert path[0] == branch[0];
      assert path[1..] == code[|prefix + branch|..];
  }

  /** Every codeword of a trie is a 0/1 string leading from the root to that symbol's leaf. */
  lemma CodeMapPaths(root: Node, c: char)
    requires c in CodeMap(root)
    ensures IsBitString(CodeMap(root)[c])
    ensures LeadsTo(root, CodeMap(root)[c], c)
  {
    CodeMapFromPaths(root, "", c);
    assert CodeMap(root)[c][0..] == CodeMap(root)[c];
  }

  /** No codeword is a prefix of another. */
  ghost predicate PrefixFree(code: map<char, string>) {
    forall c, d | c in code && d in code && c != d :: !(code[c] <= code[d])
  }

  /** The encoding map of any trie is a prefix-free code. */
  lemma CodeMapPrefixFree(root: Node)
    ensures PrefixFree(CodeMap(root))
  {
    var code := CodeMap(root);
    forall c, d | c in code && d in code && c != d
      ensures !(code[c] <= code[d])
    {
      if code[c] <= code[d] {
        CodeMapPaths(root, c);
        CodeMapPaths(root, d);
        var q := code[d][|code[c]|..];
        assert code[d] == code[c] + q;
        ReachAppend(root, code[c], q);
        assert false;
      }
    }
  }

  /** Every codeword in the encoding map is a string of binary digits. */
  lemma CodeMapBits(root: Node)
    ensures forall c | c in CodeMap(root) :: IsBitString(CodeMap(root)[c])
  {
    forall c | c in CodeMap(root) ensures IsBitString(CodeMap(root)[c]) {
      CodeMapPaths(root, c);
    }
  }

  // ---------------------------------------------------------------------------
  // Codeword concatenation

  /** Every character of `text` has an entry in `code`. */
  predicate Covers(code: map<char, string>, text: string) {
    forall i | 0 <= i < |text| :: text[i] in code
  }

  /** The codewords of the characters of `text`, in order. */
  function Codewords(code: map<char, string>, text: string): string
    requires Covers(code, text)
    decreases |text|
  {
    if text == [] then [] else Codewords(code, text[..|text| - 1]) + code[text[|text| - 1]]
  }

  /** Encoding one more character of `text` appends that character's codeword. */
  lemma CodewordsExtend(code: map<char, string>, text: string, i: nat)
    requires i < |text| && Covers(code, text[..i]) && text[i] in code
    ensures Covers(code, text[..i + 1])
    ensures Codewords(code, text[..i + 1]) == Codewords(code, text[..i]) + code[text[i]]
  {
    assert text[..i + 1][..i] == text[..i];
  }

  /** Encoding distributes over concatenation of messages. */
  lemma {:induction false} CodewordsAppend(code: map<char, string>, a: string, b: string)
    requires Covers(code, a + b)
    ensures Covers(code, a) && Covers(code, b)
    ensures Codewords(code, a + b) == Codewords(code, a) + Codewords(code, b)
    decreases |b|
  {
    assert forall i | 0 <= i < |a| :: a[i] == (a + b)[i];
    assert forall i | 0 <= i < |b| :: b[i] == (a + b)[|a| + i];
    if b == [] {
      assert a + b == a;
    } else {
      var init := b[..|b| - 1];
      assert (a + b)[..|a + b| - 1] == a + init;
      CodewordsAppend(code, a, init);
    }
  }

  /** The concatenation of codewords is a string of binary digits. */
  lemma {:induction false} CodewordsBits(code: map<char, string>, text: string)
    requires Covers(code, text)
    requires forall c | c in code :: IsBitString(code[c])
    ensures IsBitString(Codewords(code, text))
    decreases |text|
  {
    if text != [] {
      CodewordsBits(code, text[..|text| - 1]);
    }
  }

  // ---------------------------------------------------------------------------
  // Decoding walk

  /** `n` is `root` or a node below it. */
  ghost predicate Within(n: Node, root: Node)
    decreases root
  {
    n == root || (root.Internal? && (Within(n, root.zeroChild) || Within(n, root.oneChild)))
  }

  lemma {:induction false} WithinChildren(n: Node, root: Node)
    requires Within(n, root) && n.Internal?
    ensures Within(n.zeroChild, root) && Within(n.oneChild, root)
    decreases root
  {
    if n != root {
      if Within(n, root.zeroChild) {
        WithinChildren(n, root.zeroChild);
      } else {
        WithinChildren(n, root.oneChild);
      }
    }
  }

  /** A trie whose root is a leaf holds only the terminator (always so for a trained trie). */
  predicate RootDecodable(root: Node) {
    root.Leaf? ==> root.symbol == ETB
  }

  /**
   * The `decompress` loop from the node `curr`, with `text` decoded so far:
   * before each bit, a leaf ends decoding if it is the terminator, and is
   * otherwise emitted and replaced by the root; the bit then selects the
   * child ('1' the one child, anything else the zero child). When the bits
   * run out, the text decoded so far is the result.
   */
  function DecodeFrom(root: Node, curr: Node, bits: string, text: string): string
    requires RootDecodable(root) && Within(curr, root)
    decreases |bits|
  {
    if bits == [] then text
    else if curr.IsLeaf() && curr.symbol == ETB then text
    else
      var node := if curr.IsLeaf() then root else curr;
      var text' := if curr.IsLeaf() then text + [curr.symbol] else text;
      WithinChildren(node, root);
      DecodeFrom(root, if bits[0] == '1' then node.oneChild else node.zeroChild, bits[1..], text')
  }

  /** One round of the `decompress` loop from a node that is not the terminator's leaf. */
  lemma DecodeStep(root: Node, curr: Node, bits: string, text: string)
    requires RootDecodable(root) && Within(curr, root) && bits != []
    requires !(curr.Leaf? && curr.symbol == ETB)
    ensures (if curr.Leaf? then root else curr).Internal?
    ensures var node := if curr.Leaf? then root else curr;
            var next := if bits[0] == '1' then node.oneChild else node.zeroChild;
            Within(next, root)
            && DecodeFrom(root, curr, bits, text)
               == DecodeFrom(root, next, bits[1..], if curr.Leaf? then text + [curr.symbol] else text)
  {
    WithinChildren(if curr.Leaf? then root else curr, root);
  }

  /** Walking the bits of a path from `n` lands on the node the path reaches, having emitted nothing. */
  lemma {:induction false} DecodeAlong(root: Node, n: Node, path: string, rest: string, text: string)
    requires RootDecodable(root) && Within(n, root)
    requires Reach(n, path).Some?
    ensures Within(Reach(n, path).value, root)
    ensures DecodeFrom(root, n, path + rest, text) == DecodeFrom(root, Reach(n, path).value, rest, text)
    decreases |path|
  {
    if path == [] {
      assert path + rest == rest;
    } else {
      WithinChildren(n, root);
      assert (path + rest)[0] == path[0] && (path + rest)[1..] == path[1..] + rest;
      DecodeAlong(root, if path[0] == '1' then n.oneChild else n.zeroChild, path[1..], rest, text);
    }
  }

  /**
   * Decoding the codewords of a terminator-free message, then the
   * terminator's codeword, then anything at all, appends exactly the
   * message to the text decoded so far.
   */
  lemma {:induction false} DecodeCodewords(root: Node, message: string, rest: string, text: string)
    requires RootDecodable(root) && ETB in Symbols(root)
    requires Covers(CodeMap(root), message)
    requires forall i | 0 <= i < |message| :: message[i] != ETB
    ensures DecodeFrom(root, root, Codewords(CodeMap(root), message) + CodeMap(root)[ETB] + rest, text)
            == text + message
    decreases |message|
  {
    var code := CodeMap(root);
    assert Within(root, root);
    CodeMapPaths(root, ETB);
    if message == [] {
      assert Codewords(code, message) + code[ETB] + rest == code[ETB] + rest;
      DecodeAlong(root, root, code[ETB], rest, text);
    } else {
      var c, tail := message[0], message[1..];
      assert message == [c] + tail;
      CodewordsAppend(code, [c], tail);
      assert Codewords(code, [c]) == code[c] by {
        assert [c][..0] == [];
      }
      TerminatorCodeword(root, c);
      var after := Codewords(code, tail) + code[ETB] + rest;
      assert Codewords(code, message) + code[ETB] + rest == code[c] + after;
      DecodeFirst(root, c, after, text);
      DecodeCodewords(root, tail, rest, text + [c]);
      assert text + [c] + tail == text + message;
    }
  }

  /** Next to another symbol, the terminator has a non-empty codeword. */
  lemma TerminatorCodeword(root: Node, c: char)
    requires ETB in Symbols(root) && c in CodeMap(root) && c != ETB
    ensures ETB in CodeMap(root) && CodeMap(root)[ETB] != []
  {
    CodeMapPaths(root, c);
    CodeMapPaths(root, ETB);
    assert root.Internal?;
  }

  /** Decoding one codeword followed by more bits emits its symbol and starts again at the root. */
  lemma DecodeFirst(root: Node, c: char, after: string, text: string)
    requires RootDecodable(root) && c in CodeMap(root) && c != ETB && after != []
    ensures DecodeFrom(root, root, CodeMap(root)[c] + after, text) == DecodeFrom(root, root, after, text + [c])
  {
    var code := CodeMap(root);
    assert Within(root, root);
    CodeMapPaths(root, c);
    DecodeAlong(root, root, code[c], after, text);
    var leaf := Reach(root, code[c]).value;
    assert DecodeFrom(root, leaf, after, text) == DecodeFrom(root, root, after, text + [c]);
  }

  /** Decompression of compressed output: the terminator-free message comes back, whatever follows its terminator. */
  lemma DecodeRoundTrip(root: Node, message: string, rest: string)
    requires RootDecodable(root) && ETB in Symbols(root)
    requires Covers(CodeMap(root), message)
    requires forall i | 0 <= i < |message| :: message[i] != ETB
    ensures Within(root, root)
    ensures DecodeFrom(root, root, Codewords(CodeMap(root), message) + CodeMap(root)[ETB] + rest, []) == message
  {
    DecodeCodewords(root, message, rest, []);
    assert [] + message == message;
  }

  /** A terminator inside a message ends decoding there: only the text before its first occurrence comes back. */
  lemma EmbeddedTerminatorTruncates(root: Node, message: string, k: nat, rest: string)
    requires RootDecodable(root) && ETB in Symbols(root)
    requires Covers(CodeMap(root), message)
    requires k < |message| && message[k] == ETB
    requires forall i | 0 <= i < k :: message[i] != ETB
    ensures Within(root, root)
    ensures DecodeFrom(root, root, Codewords(CodeMap(root), message) + CodeMap(root)[ETB] + rest, []) == message[..k]
  {
    var code := CodeMap(root);
    var rest' := Codewords(code, message[k + 1..]) + code[ETB] + rest;
    SplitAtTerminator(code, message, k, rest);
    assert forall i | 0 <= i < |message[..k]| :: message[..k][i] == message[i];
    DecodeRoundTrip(root, message[..k], rest');
  }

  /** The bits of a message holding the terminator at `k` are those of the text before it, then the terminator's codeword, then the rest. */
  lemma SplitAtTerminator(code: map<char, string>, message: string, k: nat, rest: string)
    requires Covers(code, message)
    requires k < |message| && message[k] == ETB
    ensures Covers(code, message[..k]) && Covers(code, message[k + 1..]) && ETB in code
    ensures Codewords(code, message) + code[ETB] + rest
         == Codewords(code, message[..k]) + code[ETB] + (Codewords(code, message[k + 1..]) + code[ETB] + rest)
  {
    CodewordsAround(code, message, k);
    Regroup(Codewords(code, message[..k]), code[ETB], Codewords(code, message[k + 1..]), rest);
  }

  lemma Regroup(a: string, t: string, b: string, rest: string)
    ensures a + t + b + t + rest == a + t + (b + t + rest)
  {
  }

  lemma CodewordsAround(code: map<char, string>, message: string, k: nat)
    requires Covers(code, message)
    requires k < |message| && message[k] == ETB
    ensures Covers(code, message[..k]) && Covers(code, message[k + 1..]) && ETB in code
    ensures Codewords(code, message) == Codewords(code, message[..k]) + code[ETB] + Codewords(code, message[k + 1..])
  {
    var before, after := message[..k], message[k + 1..];
    assert message == before + ([ETB] + after);
    CodewordsAppend(code, before, [ETB] + after);
    CodewordsAppend(code, [ETB], after);
    assert Codewords(code, [ETB]) == code[ETB] by {
      assert [ETB][..0] == [];
    }
  }
}
