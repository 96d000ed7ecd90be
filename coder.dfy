/**
 * The encoder and the two decoders as functions of the table state, and the
 * theorems that tie them together: the forward decoder reads back a run of
 * codewords of the current table, and the backward decoder undoes a whole
 * encoding run, symbol by symbol, in the original order.
 */
module Coder {
  import opened Wrappers
  import opened CodeAssigner
  import opened SymbolTable

  /** The reversal of a string; the encoder appends each codeword reversed. */
  function Reverse(s: string): (r: string)
    ensures |r| == |s|
    ensures forall i :: 0 <= i < |s| ==> r[i] == s[|s| - 1 - i]
  {
    seq(|s|, i requires 0 <= i < |s| => s[|s| - 1 - i])
  }

  /** The encoder's state: the frequency map and the accumulated stream. */
  datatype Coded = Coded(freq: map<char, int>, stream: string)

  /** The frequencies after one more occurrence of `c`. */
  function Counted(f: map<char, int>, c: char): (r: map<char, int>)
    requires c in f
    ensures r.Keys == f.Keys && r[c] == f[c] + 1
    ensures forall d :: d in f && d != c ==> r[d] == f[d]
  {
    f[c := f[c] + 1]
  }

  /**
   * One encoder call for symbol `c`: count it, re-rank, and append its new
   * codeword reversed, which is a zero followed by `rank` ones.
   */
  function EncodeStep(f: map<char, int>, e: string, c: char): (r: Coded)
    requires c in f
    ensures r.freq.Keys == f.Keys && r.freq[c] == f[c] + 1
    ensures forall d :: d in f && d != c ==> r.freq[d] == f[d]
    ensures |r.stream| == |e| + Rank(r.freq, c) + 1 && r.stream[..|e|] == e
    ensures r.stream[|e|] == '0' && AllOnes(r.stream[|e| + 1..])
  {
    var bumped := Counted(f, c);
    Coded(bumped, e + Reverse(RankedTable(bumped)[c].code))
  }

  /** The encoder call's new state, as the coder's fields compute it. */
  lemma EncodeStepState(f: map<char, int>, e: string, c: char, g: map<char, int>, st: string)
    requires c in f && g == Counted(f, c) && st == e + Reverse(RankedTable(g)[c].code)
    ensures g == EncodeStep(f, e, c).freq && st == EncodeStep(f, e, c).stream
  {
  }

  /**
   * Encoder calls for each symbol of `s` in turn, from frequencies `f` and
   * stream `e`. Each symbol's count grows by its number of occurrences, and
   * the earlier stream is kept as a prefix.
   */
  function EncodeText(f: map<char, int>, e: string, s: string): (r: Coded)
    requires forall i :: 0 <= i < |s| ==> s[i] in f
    ensures r.freq.Keys == f.Keys
    ensures |r.stream| >= |e| + |s| && r.stream[..|e|] == e
    decreases |s|
  {
    if s == [] then Coded(f, e)
    else
      var prev := EncodeText(f, e, s[..|s| - 1]);
      var r := EncodeStep(prev.freq, prev.stream, s[|s| - 1]);
      assert r.stream[..|e|] == prev.stream[..|e|];
      r
  }

  /** Encoding `s` adds to each symbol's count the number of times it occurs in `s`. */
  lemma {:induction false} EncodeTextCounts(f: map<char, int>, e: string, s: string)
    requires forall i :: 0 <= i < |s| ==> s[i] in f
    ensures forall d :: d in f ==> EncodeText(f, e, s).freq[d] == f[d] + multiset(s)[d]
    decreases |s|
  {
    if s != [] {
      var s', c := s[..|s| - 1], s[|s| - 1];
      assert s == s' + [c];
      assert multiset(s) == multiset(s') + multiset{c};
      EncodeTextCounts(f, e, s');
    }
  }

  /** The encoder's stream holds nothing but bits. */
  lemma {:induction false} EncodeTextIsBits(f: map<char, int>, e: string, s: string)
    requires forall i :: 0 <= i < |s| ==> s[i] in f
    requires IsBits(e)
    ensures IsBits(EncodeText(f, e, s).stream)
    decreases |s|
  {
    if s != [] {
      var prev := EncodeText(f, e, s[..|s| - 1]);
      EncodeTextIsBits(f, e, s[..|s| - 1]);
      var r := EncodeStep(prev.freq, prev.stream, s[|s| - 1]);
      forall i | 0 <= i < |r.stream| ensures r.stream[i] == '0' || r.stream[i] == '1' {
        if i < |prev.stream| {
          assert r.stream[i] == r.stream[..|prev.stream|][i];
        } else if i > |prev.stream| {
          assert r.stream[i] == r.stream[|prev.stream| + 1..][i - |prev.stream| - 1];
        }
      }
    }
  }

  /**
   * The forward decoder: each bit is appended to the current code; when the
   * current code is some symbol's codeword, that symbol is output and the
   * current code cleared. Bits still pending at the end are dropped.
   */
  ghost function ForwardDecode(t: map<char, Entry>, bits: string, current: string): (r: string)
    ensures |r| <= |bits|
    ensures forall i :: 0 <= i < |r| ==> r[i] in t
    decreases |bits|
  {
    if bits == [] then []
    else
      var code := current + [bits[0]];
      match Lookup(t, code)
      case Some(k) => [k] + ForwardDecode(t, bits[1..], [])
      case None => ForwardDecode(t, bits[1..], code)
  }

  /** The codewords of the symbols `ks` in table `t`, one after another. */
  function Codewords(t: map<char, Entry>, ks: string): string
    requires forall i :: 0 <= i < |ks| ==> ks[i] in t
  {
    if ks == [] then [] else t[ks[0]].code + Codewords(t, ks[1..])
  }

  /** A run of ones, after a pending run of ones, decodes to nothing. */
  lemma {:induction false} ForwardDecodeOnes(t: map<char, Entry>, bits: string, current: string)
    requires AssignsPool(t) && AllOnes(current) && AllOnes(bits)
    ensures ForwardDecode(t, bits, current) == []
    decreases |bits|
  {
    if bits != [] {
      LookupAllOnes(t, current + [bits[0]]);
      ForwardDecodeOnes(t, bits[1..], current + [bits[0]]);
    }
  }

  /** Feeding the rest of `k`'s codeword completes it: `k` is output and the current code cleared. */
  lemma {:induction false} ForwardDecodeCodeword(t: map<char, Entry>, k: char, i: nat, rest: string)
    requires AssignsPool(t) && k in t
    requires i < |t[k].code|
    ensures ForwardDecode(t, t[k].code[i..] + rest, t[k].code[..i]) == [k] + ForwardDecode(t, rest, [])
    decreases |t[k].code| - i
  {
    var w := t[k].code;
    PoolCodeOf(t, k);
    var bits := w[i..] + rest;
    assert bits[0] == w[i] && bits[1..] == w[i + 1..] + rest;
    assert w[..i] + [w[i]] == w[..i + 1];
    if i + 1 == |w| {
      assert w[..i + 1] == w;
      LookupExact(t, w, k);
      assert w[i + 1..] + rest == rest;
    } else {
      assert AllOnes(w[..i + 1]);
      LookupAllOnes(t, w[..i + 1]);
      ForwardDecodeCodeword(t, k, i + 1, rest);
    }
  }

  /**
   * The forward decoder reads back any run of codewords of the current table,
   * and a trailing run of ones, which matches no codeword, is dropped.
   */
  lemma {:induction false} ForwardDecodeCodewords(t: map<char, Entry>, ks: string, tail: string)
    requires AssignsPool(t)
    requires forall i :: 0 <= i < |ks| ==> ks[i] in t
    requires AllOnes(tail)
    ensures ForwardDecode(t, Codewords(t, ks) + tail, []) == ks
    decreases |ks|
  {
    if ks == [] {
      assert Codewords(t, ks) + tail == tail;
      ForwardDecodeOnes(t, tail, []);
    } else {
      var w := t[ks[0]].code;
      PoolCodeOf(t, ks[0]);
      var rest := Codewords(t, ks[1..]) + tail;
      assert Codewords(t, ks) + tail == w[0..] + rest;
      assert w[..0] == [];
      ForwardDecodeCodeword(t, ks[0], 0, rest);
      ForwardDecodeCodewords(t, ks[1..], tail);
    }
  }

  /** Decoding one symbol's own codeword forward gives back that symbol. */
  lemma ForwardDecodeOwnCode(t: map<char, Entry>, c: char)
    requires AssignsPool(t) && c in t
    ensures ForwardDecode(t, t[c].code, []) == [c]
  {
    assert Codewords(t, [c]) + [] == t[c].code;
    ForwardDecodeCodewords(t, [c], []);
  }

  /** A codeword found by the backward scan: its length and its symbol. */
  datatype Match = Match(len: nat, symbol: char)

  /** The last `len` bits of `e`, read from the end backward. */
  function TailCode(e: string, len: nat): string
    requires len <= |e|
  {
    Reverse(e[|e| - len..])
  }

  /** The bits read backward are the last `len` bits of `e`, last bit first. */
  lemma TailCodeBackward(e: string, len: nat)
    requires len <= |e|
    ensures |TailCode(e, len)| == len
    ensures forall i :: 0 <= i < len ==> TailCode(e, len)[i] == e[|e| - 1 - i]
  {
  }

  /** Reading one more bit backward appends the bit before the ones already read. */
  lemma TailCodeStep(e: string, len: nat)
    requires len < |e|
    ensures TailCode(e, len + 1) == TailCode(e, len) + [e[|e| - 1 - len]]
  {
    var longer, shorter := TailCode(e, len + 1), TailCode(e, len);
    forall j | 0 <= j < len ensures longer[j] == shorter[j] {
      assert longer[j] == e[|e| - 1 - j];
    }
  }

  /**
   * The inner scan of the backward decoder over `e`, the bits up to the
   * cursor: it reads 1, 2, ... bits backward from the end and stops at the
   * first reading that is some symbol's codeword.
   */
  ghost function FirstMatch(t: map<char, Entry>, e: string, len: nat): (r: Option<Match>)
    requires len >= 1
    ensures r.Some? ==> len <= r.value.len <= |e| && Lookup(t, TailCode(e, r.value.len)) == Some(r.value.symbol)
    ensures r.Some? ==> forall l :: len <= l < r.value.len ==> Lookup(t, TailCode(e, l)) == None
    ensures r.None? ==> forall l :: len <= l <= |e| ==> Lookup(t, TailCode(e, l)) == None
    decreases |e| + 1 - len
  {
    if len > |e| then None
    else match Lookup(t, TailCode(e, len))
      case Some(k) => Some(Match(len, k))
      case None => FirstMatch(t, e, len + 1)
  }

  /** The backward decoder's result: the text, and the frequencies and table it leaves behind. */
  datatype Decoded = Decoded(text: string, freq: map<char, int>, table: map<char, Entry>)

  /**
   * The backward decoder over `e` with its cursor at `end`, from table `t`
   * and frequencies `f`, with `text` already decoded from the bits after the
   * cursor. When the scan back from the cursor finds a codeword, its symbol
   * goes in front of the text, that symbol's count is decremented, the table
   * is re-ranked and the cursor moves before the codeword; when it finds
   * none, the cursor moves back one bit. At a cursor of -1 it stops.
   */
  ghost function Decompress(t: map<char, Entry>, f: map<char, int>, e: string, end: int, text: string): (r: Decoded)
    requires t.Keys <= f.Keys && end < |e|
    ensures r.freq.Keys == f.Keys
    ensures |text| <= |r.text| <= |text| + if end < 0 then 0 else end + 1
    decreases end
  {
    if end < 0 then Decoded(text, f, t)
    else match FirstMatch(t, e[..end + 1], 1)
      case None => Decompress(t, f, e, end - 1, text)
      case Some(m) =>
        var f' := f[m.symbol := f[m.symbol] - 1];
        Decompress(RankedTable(f'), f', e, end - m.len, [m.symbol] + text)
  }

  /**
   * One round of the backward decoder when the codeword of `k`, `len` bits
   * long, is found at the cursor: `k` goes in front of the text, its count
   * drops by one, the table is re-ranked and the cursor moves before the
   * codeword.
   */
  lemma DecompressHit(t: map<char, Entry>, f: map<char, int>, e: string, end: nat, len: nat, k: char, text: string)
    requires t.Keys <= f.Keys && end < |e|
    requires FirstMatch(t, e[..end + 1], 1) == Some(Match(len, k))
    ensures 1 <= len <= end + 1 && k in f
    ensures Decompress(t, f, e, end, text)
         == Decompress(RankedTable(f[k := f[k] - 1]), f[k := f[k] - 1], e, end - len, [k] + text)
  {
  }

  /** The same round, stated on the decremented frequencies `f'` and the new cursor `next`. */
  lemma DecompressAdvance(t: map<char, Entry>, f: map<char, int>, e: string, end: nat, len: nat, k: char, text: string,
                          f': map<char, int>, next: int)
    requires t.Keys <= f.Keys && end < |e|
    requires FirstMatch(t, e[..end + 1], 1) == Some(Match(len, k))
    requires k in f ==> f' == f[k := f[k] - 1]
    requires next == end - len
    ensures k in f && f'.Keys == f.Keys && -1 <= next < |e|
    ensures Decompress(t, f, e, end, text) == Decompress(RankedTable(f'), f', e, next, [k] + text)
  {
    DecompressHit(t, f, e, end, len, k, text);
  }

  /** One round of the backward decoder when no codeword is found at the cursor: it moves back one bit. */
  lemma DecompressMiss(t: map<char, Entry>, f: map<char, int>, e: string, end: nat, text: string)
    requires t.Keys <= f.Keys && end < |e|
    requires FirstMatch(t, e[..end + 1], 1) == None
    ensures Decompress(t, f, e, end, text) == Decompress(t, f, e, end - 1, text)
  {
  }

  /** The backward decoder only reads the bits up to its cursor. */
  lemma {:induction false} DecompressPrefix(t: map<char, Entry>, f: map<char, int>, e: string, e': string, end: int, text: string)
    requires t.Keys <= f.Keys && -1 <= end < |e| && end < |e'|
    requires e[..end + 1] == e'[..end + 1]
    ensures Decompress(t, f, e, end, text) == Decompress(t, f, e', end, text)
    decreases end
  {
    if end >= 0 {
      match FirstMatch(t, e[..end + 1], 1)
      case None =>
        DecompressMiss(t, f, e, end, text);
        DecompressMiss(t, f, e', end, text);
        assert e[..end] == e[..end + 1][..end] == e'[..end];
        DecompressPrefix(t, f, e, e', end - 1, text);
      case Some(m) =>
        var f' := f[m.symbol := f[m.symbol] - 1];
        var next := end - m.len;
        DecompressAdvance(t, f, e, end, m.len, m.symbol, text, f', next);
        DecompressAdvance(t, f, e', end, m.len, m.symbol, text, f', next);
        assert e[..next + 1] == e[..end + 1][..next + 1] == e'[..next + 1];
        DecompressPrefix(RankedTable(f'), f', e, e', next, [m.symbol] + text);
    }
  }

  /** A stream of ones holds no codeword: the backward decoder drops every bit and changes nothing. */
  lemma {:induction false} DecompressAllOnes(t: map<char, Entry>, f: map<char, int>, e: string, end: int, text: string)
    requires AssignsPool(t) && t.Keys <= f.Keys && -1 <= end < |e| && AllOnes(e[..end + 1])
    ensures Decompress(t, f, e, end, text) == Decoded(text, f, t)
    decreases end
  {
    if end >= 0 {
      var prefix := e[..end + 1];
      forall l | 1 <= l <= |prefix| ensures Lookup(t, TailCode(prefix, l)) == None {
        LookupAllOnes(t, TailCode(prefix, l));
      }
      assert e[..end] == prefix[..end];
      DecompressAllOnes(t, f, e, end - 1, text);
    }
  }

  /** Reading the last l bits of `e + Reverse(w)` backward gives back the first l bits of `w`. */
  lemma TailOfReversed(e: string, w: string, l: nat)
    requires l <= |w|
    ensures TailCode(e + Reverse(w), l) == w[..l]
  {
    var r := Reverse(w);
    var s := e + r;
    var tail := s[|s| - l..];
    assert |TailCode(s, l)| == l;
    forall i | 0 <= i < l ensures TailCode(s, l)[i] == w[i] {
      assert TailCode(s, l)[i] == tail[l - 1 - i];
      assert tail[l - 1 - i] == r[|w| - 1 - i];
    }
  }

  /**
   * Reading backward over a codeword just appended, the partial reads are
   * nobody's codeword and the full read is exactly that symbol's.
   */
  lemma OnlyWholeCodeMatches(t: map<char, Entry>, e: string, k: char)
    requires AssignsPool(t) && k in t
    ensures var s := e + Reverse(t[k].code);
      && (forall l :: 1 <= l < |t[k].code| ==> Lookup(t, TailCode(s, l)) == None)
      && Lookup(t, TailCode(s, |t[k].code|)) == Some(k)
  {
    var w := t[k].code;
    PoolCodeOf(t, k);
    var s := e + Reverse(w);
    forall l | 1 <= l < |w| ensures Lookup(t, TailCode(s, l)) == None {
      TailOfReversed(e, w, l);
      assert AllOnes(w[..l]);
      LookupAllOnes(t, w[..l]);
    }
    TailOfReversed(e, w, |w|);
    assert w[..|w|] == w;
    LookupExact(t, w, k);
  }

  /** Reading backward over a codeword just appended finds exactly that codeword and its symbol. */
  lemma FirstMatchFindsLast(t: map<char, Entry>, e: string, k: char)
    requires AssignsPool(t) && k in t
    ensures FirstMatch(t, e + Reverse(t[k].code), 1) == Some(Match(|t[k].code|, k))
  {
    var w := t[k].code;
    PoolCodeOf(t, k);
    var s := e + Reverse(w);
    OnlyWholeCodeMatches(t, e, k);
    var r := FirstMatch(t, s, 1);
    assert r.Some? by {
      assert Lookup(t, TailCode(s, |w|)) != None;
    }
    assert Lookup(t, TailCode(s, r.value.len)).Some?;
    assert r.value.len >= |w|;
    assert r.value.len == |w|;
  }

  /** Decrementing a count just incremented restores the frequency map. */
  lemma UnbumpRestores(f: map<char, int>, c: char, g: map<char, int>)
    requires c in f && g == Counted(f, c)
    ensures f == g[c := g[c] - 1]
  {
    assert g[c := g[c] - 1].Keys == f.Keys;
  }

  /**
   * After the encoder has reached frequencies `g` and stream `s` by encoding
   * `w` from frequencies `f` and stream `e`, the backward decoder over all of
   * `s`, from the table re-ranked from `g`, yields `w` in front of `text` and
   * carries on over `e` from `f` and its re-ranked table.
   */
  ghost predicate DecodesBack(f: map<char, int>, e: string, g: map<char, int>, s: string, w: string, text: string)
  {
    Decompress(RankedTable(g), g, s, |s| - 1, text) == Decompress(RankedTable(f), f, e, |e| - 1, w + text)
  }

  /**
   * Decoding undoes the last encoder call: with the cursor at the end of the
   * stream it finds that call's symbol, restores the frequencies before it
   * and goes on over the earlier stream.
   */
  lemma DecompressLast(f: map<char, int>, e: string, c: char, text: string)
    requires f.Keys == Symbols && c in f
    ensures DecodesBack(f, e, EncodeStep(f, e, c).freq, EncodeStep(f, e, c).stream, [c], text)
  {
    DecompressUndoes(f, e, c, text, EncodeStep(f, e, c).freq, EncodeStep(f, e, c).stream);
  }

  /** `DecompressLast`, on the encoder's new frequencies `g` and stream `s` as the coder computes them. */
  lemma DecompressUndoes(f: map<char, int>, e: string, c: char, text: string, g: map<char, int>, s: string)
    requires f.Keys == Symbols && c in f
    requires g == Counted(f, c) && s == e + Reverse(RankedTable(g)[c].code)
    ensures DecodesBack(f, e, g, s, [c], text)
  {
    assert g.Keys == Symbols;
    RankedAssignsPool(g);
    LastFound(RankedTable(g), e, c, s);
    UnbumpRestores(f, c, g);
    PrefixKept(e, Reverse(RankedTable(g)[c].code));
    UndoFound(f, e, c, text, g, s);
  }

  /**
   * The decoding round that undoes one encoder call, from what it needs:
   * the scan at the end of `s` finds `c` just after `e`, `s` agrees with
   * `e` up to there, and taking one `c` off `g` gives `f`.
   */
  lemma UndoFound(f: map<char, int>, e: string, c: char, text: string, g: map<char, int>, s: string)
    requires f.Keys == Symbols && g.Keys == Symbols && c in g && f == g[c := g[c] - 1]
    requires |e| < |s| && FirstMatch(RankedTable(g), s[..|s| - 1 + 1], 1) == Some(Match(|s| - |e|, c))
    requires s[..|e| - 1 + 1] == e[..|e| - 1 + 1]
    ensures DecodesBack(f, e, g, s, [c], text)
  {
    UndoRound(f, e, c, text, g, s, |s| - 1, |e| - 1);
    DecompressPrefix(RankedTable(f), f, s, e, |e| - 1, [c] + text);
  }

  /** The round itself: from the end of `s` the decoder takes `c` off and stops just after `e`. */
  lemma UndoRound(f: map<char, int>, e: string, c: char, text: string, g: map<char, int>, s: string, end: nat, next: int)
    requires RankedTable(g).Keys <= g.Keys && c in g && f == g[c := g[c] - 1]
    requires end == |s| - 1 && next == |e| - 1 && next < end
    requires FirstMatch(RankedTable(g), s[..end + 1], 1) == Some(Match(end - next, c))
    ensures Decompress(RankedTable(g), g, s, end, text) == Decompress(RankedTable(f), f, s, next, [c] + text)
  {
    DecompressAdvance(RankedTable(g), g, s, end, end - next, c, text, f, next);
  }

  /** Appending to a stream keeps the bits up to its old last position. */
  lemma PrefixKept(e: string, w: string)
    ensures (e + w)[..|e| - 1 + 1] == e[..|e| - 1 + 1]
  {
    assert (e + w)[..|e|] == e == e[..|e|];
  }

  /** Scanning back from the end of the stream the encoder just extended finds the symbol it encoded. */
  lemma LastFound(t: map<char, Entry>, e: string, c: char, s: string)
    requires AssignsPool(t) && c in t && s == e + Reverse(t[c].code)
    ensures FirstMatch(t, s[..|s| - 1 + 1], 1) == Some(Match(|s| - |e|, c))
  {
    FirstMatchFindsLast(t, e, c);
    assert s[..|s| - 1 + 1] == s;
  }

  /** Encoding a non-empty text is one more encoder call on the state its prefix left. */
  lemma EncodeTextUnfold(f: map<char, int>, e: string, s: string)
    requires forall i :: 0 <= i < |s| ==> s[i] in f
    requires s != []
    ensures s[|s| - 1] in EncodeText(f, e, s[..|s| - 1]).freq
    ensures EncodeText(f, e, s)
         == EncodeStep(EncodeText(f, e, s[..|s| - 1]).freq, EncodeText(f, e, s[..|s| - 1]).stream, s[|s| - 1])
  {
  }

  /** Moving a symbol from the front of the decoded text to the end of the encoded one. */
  lemma MoveLast(s: string, c: char, text: string)
    ensures s + ([c] + text) == (s + [c]) + text
  {
  }

  /** The decoder's result depends on the text already decoded only through its value. */
  lemma DecompressSameText(t: map<char, Entry>, f: map<char, int>, e: string, end: int, x: string, y: string)
    requires t.Keys <= f.Keys && end < |e|
    requires x == y
    ensures Decompress(t, f, e, end, x) == Decompress(t, f, e, end, y)
  {
  }

  /** The decoder's result depends on the table only through its value. */
  lemma DecompressSameTable(t: map<char, Entry>, t': map<char, Entry>, f: map<char, int>, e: string, end: int, text: string)
    requires t.Keys <= f.Keys && end < |e|
    requires t == t'
    ensures Decompress(t, f, e, end, text) == Decompress(t', f, e, end, text)
  {
  }

  /** Splitting off the last symbol of a non-empty string. */
  lemma SplitLast(s: string)
    requires s != []
    ensures s[..|s| - 1] + [s[|s| - 1]] == s
  {
  }

  /** `DecodesBack` depends on the encoder state, the decoded prefix and the text only through their values. */
  lemma DecodesBackCongruent(f: map<char, int>, e: string, g: map<char, int>, s: string, w: string, text: string,
                             g': map<char, int>, s': string, w': string, text': string)
    requires g == g' && s == s' && w == w' && text == text'
    requires DecodesBack(f, e, g, s, w, text)
    ensures DecodesBack(f, e, g', s', w', text')
  {
  }

  /**
   * One encoder call more is undone by one decoder step more: if decoding
   * from frequencies `g` and stream `s` yields `w` before `[c] + text`,
   * decoding from the state after encoding `c` yields `w + [c]` before `text`.
   */
  lemma RoundTripStep(f: map<char, int>, e: string, g: map<char, int>, s: string, w: string, c: char, text: string)
    requires g.Keys == Symbols && c in g
    requires DecodesBack(f, e, g, s, w, [c] + text)
    ensures DecodesBack(f, e, EncodeStep(g, s, c).freq, EncodeStep(g, s, c).stream, w + [c], text)
  {
    DecompressLast(g, s, c, text);
    MoveLast(w, c, text);
    DecompressSameText(RankedTable(f), f, e, |e| - 1, w + ([c] + text), (w + [c]) + text);
  }

  /**
   * The round trip: after encoding `s`, the backward decoder over the whole
   * stream, from the table the encoder left, yields `s` in the original order
   * in front of whatever was already decoded, and continues over the earlier
   * stream from the frequencies and table before `s`.
   */
  lemma {:induction false} RoundTrip(f: map<char, int>, e: string, s: string, text: string)
    requires f.Keys == Symbols
    requires forall i :: 0 <= i < |s| ==> s[i] in f
    ensures DecodesBack(f, e, EncodeText(f, e, s).freq, EncodeText(f, e, s).stream, s, text)
    decreases |s|
  {
    if s == [] {
      assert s + text == text;
    } else {
      RoundTrip(f, e, s[..|s| - 1], [s[|s| - 1]] + text);
      RoundTripStep(f, e, EncodeText(f, e, s[..|s| - 1]).freq, EncodeText(f, e, s[..|s| - 1]).stream, s[..|s| - 1], s[|s| - 1], text);
      EncodeTextUnfold(f, e, s);
      SplitLast(s);
      DecodesBackCongruent(f, e,
        EncodeStep(EncodeText(f, e, s[..|s| - 1]).freq, EncodeText(f, e, s[..|s| - 1]).stream, s[|s| - 1]).freq,
        EncodeStep(EncodeText(f, e, s[..|s| - 1]).freq, EncodeText(f, e, s[..|s| - 1]).stream, s[|s| - 1]).stream,
        s[..|s| - 1] + [s[|s| - 1]], text,
        EncodeText(f, e, s).freq, EncodeText(f, e, s).stream, s, text);
    }
  }

  /**
   * One iteration of the driver's loop, on the coder's fields: when they
   * hold the encoder state after the first i symbols of `input`, the
   * encoder call for `input[i]` leaves the state after the first i + 1.
   */
  lemma EncodeTextExtend(f: map<char, int>, e: string, input: string, i: nat, c: char,
                         g: map<char, int>, st: string, g': map<char, int>, st': string)
    requires forall j :: 0 <= j < |input| ==> input[j] in f
    requires i < |input| && c == input[i] && c in g
    requires Coded(g, st) == EncodeText(f, e, input[..i])
    requires g' == Counted(g, c) && st' == st + Reverse(RankedTable(g')[c].code)
    ensures Coded(g', st') == EncodeText(f, e, input[..i + 1])
  {
    EncodeTextSnoc(f, e, input, i);
    EncodeStepState(g, st, c, g', st');
  }

  /** Encoding one more symbol of `input` is one more encoder call. */
  lemma EncodeTextSnoc(f: map<char, int>, e: string, input: string, i: nat)
    requires forall j :: 0 <= j < |input| ==> input[j] in f
    requires i < |input|
    ensures input[i] in EncodeText(f, e, input[..i]).freq
    ensures EncodeText(f, e, input[..i + 1])
         == EncodeStep(EncodeText(f, e, input[..i]).freq, EncodeText(f, e, input[..i]).stream, input[i])
  {
    var s := input[..i + 1];
    assert s[..|s| - 1] == input[..i];
    EncodeTextUnfold(f, e, s);
  }

  /**
   * At the end of the driver's loop the whole input has been encoded, and
   * so, by the round trip, the stream decodes back to it.
   */
  lemma EncodedWhole(f: map<char, int>, e: string, input: string, g: map<char, int>, st: string)
    requires f.Keys == Symbols
    requires forall j :: 0 <= j < |input| ==> input[j] in f
    requires Coded(g, st) == EncodeText(f, e, input[..|input|])
    ensures Coded(g, st) == EncodeText(f, e, input)
    ensures DecodesBack(f, e, g, st, input, [])
  {
    assert input[..|input|] == input;
    RoundTrip(f, e, input, []);
  }

  /**
   * The decoding guarantee from an empty earlier stream, read off for the
   * whole stream and a table `t` that is the re-ranked one (or, when nothing
   * was encoded, any table over the symbols): the decoder yields the input,
   * the starting frequencies and the table re-ranked from them.
   */
  lemma DecodeEncoded(f: map<char, int>, input: string, t: map<char, Entry>, g: map<char, int>, st: string)
    requires t.Keys <= g.Keys
    requires |input| > 0 ==> t == RankedTable(g)
    requires |input| == 0 ==> g == f && st == []
    requires DecodesBack(f, [], g, st, input, [])
    ensures Decompress(t, g, st, |st| - 1, []).text == input
    ensures Decompress(t, g, st, |st| - 1, []).freq == f
    ensures |input| > 0 ==> Decompress(t, g, st, |st| - 1, []).table == RankedTable(f)
    ensures |input| == 0 ==> Decompress(t, g, st, |st| - 1, []).table == t
  {
    assert input + [] == input;
  }
}
