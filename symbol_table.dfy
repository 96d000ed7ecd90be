/**
 * The symbol table of the coder: the fixed alphabet, the rank order used to
 * re-rank it (higher frequency first, then the smaller character), the
 * table that re-ranking produces, and the reverse lookup by codeword.
 */
module SymbolTable {
  import opened Wrappers
  import opened CodeAssigner

  /** The alphabet in the order the source lists it before shuffling: chars 32..127, then CR and LF. */
  const Alphabet: seq<char> := seq(98, AlphabetAt)

  /** The i-th character of `Alphabet`. */
  function AlphabetAt(i: int): char
  {
    if 0 <= i < 96 then (32 + i) as char else if i == 96 then '\r' else '\n'
  }

  /** The alphabet as a set: the key set of every table once it is built. */
  const Symbols: set<char> := set c: char | IsSymbol(c)

  /** Membership in the alphabet: chars 32..127 inclusive, CR and LF. */
  predicate IsSymbol(c: char)
  {
    32 <= c as int <= 127 || c == '\r' || c == '\n'
  }

  /** The size of the alphabet, and so of the code pool. */
  const N: nat := 98

  /** One table entry: the symbol's count and its current codeword. */
  datatype Entry = Entry(count: int, code: string)

  predicate Distinct(s: seq<char>)
  {
    forall i, j :: 0 <= i < j < |s| ==> s[i] != s[j]
  }

  lemma SubsetCard<T>(a: set<T>, b: set<T>)
    requires a <= b
    ensures |a| <= |b|
    ensures |a| == |b| ==> a == b
  {
    assert b == a + (b - a);
    if |a| == |b| {
      assert |b - a| == 0;
    }
  }

  /** A sequence without repetitions has as many elements as it has distinct members. */
  lemma {:induction false} DistinctCard(s: seq<char>)
    requires Distinct(s)
    ensures |set c | c in s| == |s|
  {
    if s != [] {
      var t := s[..|s| - 1];
      DistinctCard(t);
      assert (set c | c in s) == (set c | c in t) + {s[|s| - 1]};
    }
  }

  /** Every symbol of the alphabet is listed in `Alphabet`. */
  lemma SymbolListed(c: char)
    requires c in Symbols
    ensures c in Alphabet
  {
    if 32 <= c as int <= 127 {
      assert Alphabet[c as int - 32] == c;
    } else {
      assert Alphabet[96] == '\r' && Alphabet[97] == '\n';
    }
  }

  /** `Alphabet` lists the 98 symbols once each. */
  lemma AlphabetFacts()
    ensures |Alphabet| == N && Distinct(Alphabet)
    ensures Symbols == set c | c in Alphabet
    ensures |Symbols| == N
  {
    forall c | c in Symbols ensures c in Alphabet {
      SymbolListed(c);
    }
    DistinctCard(Alphabet);
  }

  /** In a sequence without repetitions every element occurs at most once. */
  lemma {:induction false} DistinctOccursOnce(s: seq<char>, x: char)
    requires Distinct(s)
    ensures multiset(s)[x] <= 1
  {
    if s != [] {
      var u := s[..|s| - 1];
      assert s == u + [s[|s| - 1]];
      DistinctOccursOnce(u, x);
      if x == s[|s| - 1] {
        assert x !in u;
      }
    }
  }

  /** A rearrangement of the alphabet still lists each of its 98 symbols exactly once. */
  lemma PermutedAlphabet(s: seq<char>)
    requires multiset(s) == multiset(Alphabet)
    ensures |s| == N && Distinct(s)
    ensures forall c :: c in s <==> c in Symbols
  {
    AlphabetFacts();
    assert |s| == |multiset(s)| == |multiset(Alphabet)| == |Alphabet|;
    forall c ensures c in s <==> c in Symbols {
      assert c in s <==> c in multiset(s);
      assert c in Alphabet <==> c in multiset(Alphabet);
    }
    forall i, j | 0 <= i < j < |s| ensures s[i] != s[j] {
      if s[i] == s[j] {
        assert s == s[..i] + [s[i]] + s[i + 1..j] + [s[j]] + s[j + 1..];
        DistinctOccursOnce(Alphabet, s[i]);
      }
    }
  }

  /** The order of the source's comparator: higher frequency first, then the smaller character. */
  predicate Before(f: map<char, int>, a: char, b: char)
    requires a in f && b in f
    ensures Before(f, a, b) ==> a != b && f[a] >= f[b]
    ensures a != b && f[a] > f[b] ==> Before(f, a, b)
  {
    f[a] > f[b] || (f[a] == f[b] && a < b)
  }

  /** The 0-based rank of `c`: the number of symbols ordered before it. */
  function Rank(f: map<char, int>, c: char): (r: nat)
    requires c in f
    ensures r < |f|
  {
    var before := set d | d in f && Before(f, d, c);
    assert f.Keys == (f.Keys - {c}) + {c};
    SubsetCard(before, f.Keys - {c});
    |before|
  }

  /** A symbol ordered before another has a strictly smaller rank. */
  lemma RankMonotone(f: map<char, int>, a: char, b: char)
    requires a in f && b in f && Before(f, a, b)
    ensures Rank(f, a) < Rank(f, b)
  {
    var below := set d | d in f && Before(f, d, a);
    var above := set d | d in f && Before(f, d, b);
    assert below + {a} <= above;
    SubsetCard(below + {a}, above);
  }

  /** Distinct symbols have distinct ranks. */
  lemma RankInjective(f: map<char, int>, a: char, b: char)
    requires a in f && b in f && a != b
    ensures Rank(f, a) != Rank(f, b)
  {
    if Before(f, a, b) {
      RankMonotone(f, a, b);
    } else {
      RankMonotone(f, b, a);
    }
  }

  /** The table that re-ranking builds: the symbol of rank j gets the pool codeword of rank j + 1. */
  function RankedTable(f: map<char, int>): map<char, Entry>
  {
    map c | c in f :: RankedEntry(f, c)
  }

  function RankedEntry(f: map<char, int>, c: char): Entry
    requires c in f
  {
    Entry(f[c], Code(Rank(f, c) + 1))
  }

  /**
   * Re-ranking keeps every symbol and its count, and gives each one a pool
   * codeword: ones, then a closing zero, no longer than the alphabet.
   */
  lemma RankedTableEntries(f: map<char, int>, c: char)
    requires c in f
    ensures RankedTable(f).Keys == f.Keys
    ensures RankedTable(f)[c].count == f[c]
    ensures 1 <= |RankedTable(f)[c].code| <= |f|
    ensures AllOnes(RankedTable(f)[c].code[..|RankedTable(f)[c].code| - 1])
    ensures RankedTable(f)[c].code[|RankedTable(f)[c].code| - 1] == '0'
  {
    var w := RankedTable(f)[c].code;
    assert w == Code(Rank(f, c) + 1);
    assert AllOnes(w[..|w| - 1]);
  }

  /**
   * A table over the whole alphabet whose codewords are pool codewords of
   * pairwise distinct ranks: each symbol holds exactly one pool codeword.
   */
  ghost predicate AssignsPool(t: map<char, Entry>)
  {
    && t.Keys == Symbols
    && (forall c {:trigger HoldsPoolCode(t, c)} :: c in t ==> HoldsPoolCode(t, c))
    && (forall a, b {:trigger DifferentLengths(t, a, b)} :: a in t && b in t && a != b ==> DifferentLengths(t, a, b))
  }

  /** The entry of `c` holds one of the N pool codewords. */
  ghost predicate HoldsPoolCode(t: map<char, Entry>, c: char)
    requires c in t
  {
    1 <= |t[c].code| <= N && t[c].code == Code(|t[c].code|)
  }

  /** `a` and `b` hold codewords of different lengths, so of different ranks. */
  ghost predicate DifferentLengths(t: map<char, Entry>, a: char, b: char)
    requires a in t && b in t
  {
    |t[a].code| != |t[b].code|
  }

  /** Each symbol of a table that assigns the pool holds a pool codeword. */
  lemma PoolCodeOf(t: map<char, Entry>, c: char)
    requires AssignsPool(t) && c in t
    ensures 1 <= |t[c].code| <= N && t[c].code == Code(|t[c].code|)
  {
    assert HoldsPoolCode(t, c);
  }

  /** Two symbols of a table that assigns the pool hold codewords of different lengths. */
  lemma LengthsDiffer(t: map<char, Entry>, a: char, b: char)
    requires AssignsPool(t) && a in t && b in t && a != b
    ensures |t[a].code| != |t[b].code|
  {
    assert DifferentLengths(t, a, b);
  }

  /**
   * Dealing the pool codewords out along a listing of the alphabet, one per
   * position, assigns the pool.
   */
  lemma ListedTableAssignsPool(s: seq<char>, t: map<char, Entry>)
    requires |s| == N && Distinct(s)
    requires forall c :: c in s <==> c in Symbols
    requires forall c :: c in t <==> c in s
    requires forall j :: 0 <= j < |s| ==> t[s[j]].code == Code(j + 1)
    ensures AssignsPool(t)
  {
    forall c | c in t ensures HoldsPoolCode(t, c) {
      var j :| 0 <= j < |s| && s[j] == c;
    }
    forall a, b | a in t && b in t && a != b ensures DifferentLengths(t, a, b) {
      var i :| 0 <= i < |s| && s[i] == a;
      var j :| 0 <= j < |s| && s[j] == b;
    }
  }

  lemma {:induction false} LengthsCard(t: map<char, Entry>, keys: set<char>)
    requires keys <= t.Keys
    requires forall a, b :: a in keys && b in keys && a != b ==> |t[a].code| != |t[b].code|
    ensures |(set c | c in keys :: |t[c].code|)| == |keys|
    decreases keys
  {
    if keys != {} {
      var x :| x in keys;
      LengthsCard(t, keys - {x});
      assert (set c | c in keys :: |t[c].code|)
          == (set c | c in keys - {x} :: |t[c].code|) + {|t[x].code|};
    }
  }

  /** The ranks 1..n. */
  function Ranks(n: nat): (r: set<nat>)
    ensures |r| == n
    ensures forall j :: j in r <==> 1 <= j <= n
  {
    if n == 0 then {} else Ranks(n - 1) + {n}
  }

  /** In a table that assigns the pool, every pool codeword is held by some symbol. */
  lemma PoolCovered(t: map<char, Entry>)
    requires AssignsPool(t)
    ensures forall j :: 1 <= j <= N ==> exists c :: c in t && t[c].code == Code(j)
  {
    AlphabetFacts();
    forall a, b | a in t && b in t && a != b ensures |t[a].code| != |t[b].code| {
      LengthsDiffer(t, a, b);
    }
    LengthsCard(t, t.Keys);
    var lengths := set c | c in t :: |t[c].code|;
    forall n | n in lengths ensures n in Ranks(N) {
      var c :| c in t && |t[c].code| == n;
      PoolCodeOf(t, c);
    }
    SubsetCard(lengths, Ranks(N));
    forall j | 1 <= j <= N ensures exists c :: c in t && t[c].code == Code(j) {
      assert j in lengths;
      var c :| c in t && |t[c].code| == j;
      PoolCodeOf(t, c);
    }
  }

  /** A re-ranked table over the alphabet assigns the whole pool, one codeword per symbol. */
  lemma RankedAssignsPool(f: map<char, int>)
    requires f.Keys == Symbols
    ensures AssignsPool(RankedTable(f))
  {
    AlphabetFacts();
    var t := RankedTable(f);
    assert t.Keys == Symbols;
    forall c | c in t ensures HoldsPoolCode(t, c) {
      var n := Rank(f, c) + 1;
      assert t[c].code == Code(n);
      assert n <= |f.Keys| == N;
    }
    forall a, b | a in t && b in t && a != b ensures DifferentLengths(t, a, b) {
      RankInjective(f, a, b);
    }
  }

  /**
   * In a re-ranked table, `a` has a shorter codeword than `b` exactly when it
   * comes first in the rank order: a higher frequency, or the same frequency
   * and a smaller character.
   */
  lemma RankedOrder(f: map<char, int>, a: char, b: char)
    requires a in f && b in f
    ensures Before(f, a, b) <==> |RankedTable(f)[a].code| < |RankedTable(f)[b].code|
  {
    if Before(f, a, b) {
      RankMonotone(f, a, b);
    } else if a != b {
      RankMonotone(f, b, a);
    }
  }

  /** A symbol more frequent than every other one holds the one-bit codeword "0". */
  lemma TopSymbolGetsShortestCode(f: map<char, int>, c: char)
    requires c in f
    requires forall d :: d in f && d != c ==> f[d] < f[c]
    ensures RankedTable(f)[c].code == "0"
  {
    assert (set d | d in f && Before(f, d, c)) == {};
  }

  /**
   * A symbol whose entry holds codeword `w`, if there is one. The source
   * scans the table in the dictionary's enumeration order, which it does not
   * fix, and stops at the first hit: any holder of `w` may be the answer.
   * Under `AssignsPool` there is at most one (`LookupExact`).
   */
  ghost function Lookup(t: map<char, Entry>, w: string): (r: Option<char>)
    ensures r.Some? ==> r.value in t && t[r.value].code == w
    ensures r.None? <==> forall c :: c in t ==> t[c].code != w
  {
    if exists c :: c in t && t[c].code == w then
      var c :| c in t && t[c].code == w; Some(c)
    else None
  }

  /** In a table that assigns the pool, the lookup finds exactly the symbol holding `w`. */
  lemma LookupExact(t: map<char, Entry>, w: string, k: char)
    requires AssignsPool(t)
    ensures Lookup(t, w) == Some(k) <==> k in t && t[k].code == w
  {
    if k in t && t[k].code == w {
      var r := Lookup(t, w);
      assert r.Some?;
      if r.value != k {
        LengthsDiffer(t, r.value, k);
      }
    }
  }

  /** A string of ones is nobody's codeword. */
  lemma LookupAllOnes(t: map<char, Entry>, w: string)
    requires AssignsPool(t) && AllOnes(w)
    ensures Lookup(t, w) == None
  {
    if Lookup(t, w).Some? {
      PoolCodeOf(t, Lookup(t, w).value);
    }
  }

  /** `s` lists its symbols in rank order. */
  predicate SortedByRank(f: map<char, int>, s: seq<char>)
  {
    && (forall i :: 0 <= i < |s| ==> s[i] in f)
    && (forall i, j :: 0 <= i < j < |s| ==> Before(f, s[i], s[j]))
  }

  /** In a rank-sorted listing of all the keys, each symbol stands at its rank. */
  lemma SortedRankIsIndex(f: map<char, int>, s: seq<char>, j: int)
    requires SortedByRank(f, s)
    requires forall c :: c in f <==> c in s
    requires 0 <= j < |s|
    ensures Rank(f, s[j]) == j
  {
    var before := set d | d in f && Before(f, d, s[j]);
    var prefix := set c | c in s[..j];
    forall d | d in before ensures d in prefix {
      var i :| 0 <= i < |s| && s[i] == d;
    }
    assert before == prefix;
    DistinctCard(s[..j]);
  }

  /**
   * The rank-sorted listing of a key set is unique, so whatever algorithm
   * sorts and whatever order the keys arrive in, the result is the same.
   */
  lemma SortedUnique(f: map<char, int>, s: seq<char>, s': seq<char>)
    requires SortedByRank(f, s) && SortedByRank(f, s')
    requires forall c :: c in f <==> c in s
    requires forall c :: c in f <==> c in s'
    ensures s == s'
  {
    DistinctCard(s);
    DistinctCard(s');
    assert (set c | c in s) == (set c | c in s');
    forall j | 0 <= j < |s| ensures s[j] == s'[j] {
      SortedRankIsIndex(f, s, j);
      SortedRankIsIndex(f, s', j);
      if s[j] != s'[j] {
        RankInjective(f, s[j], s'[j]);
      }
    }
  }

  /** A rank-sorted listing of all the keys lists each key once. */
  lemma SortedLength(f: map<char, int>, s: seq<char>)
    requires SortedByRank(f, s)
    requires forall c :: c in f <==> c in s
    ensures Distinct(s) && |s| == |f.Keys|
  {
    assert Distinct(s);
    DistinctCard(s);
    assert (set c | c in s) == f.Keys;
  }

  /**
   * Handing out the pool codewords along a rank-sorted listing of all the
   * keys, each with the symbol's count, builds exactly the re-ranked table.
   */
  lemma SortedTableIsRanked(f: map<char, int>, s: seq<char>, t: map<char, Entry>)
    requires SortedByRank(f, s)
    requires forall c :: c in f <==> c in s
    requires forall c :: c in t <==> c in s
    requires forall j :: 0 <= j < |s| ==> t[s[j]] == Entry(f[s[j]], Code(j + 1))
    ensures t == RankedTable(f)
  {
    var r := RankedTable(f);
    assert t.Keys == r.Keys;
    SortedEntries(f, s, t);
  }

  /** Each entry of a table dealt along a rank-sorted listing is the re-ranked entry. */
  lemma SortedEntries(f: map<char, int>, s: seq<char>, t: map<char, Entry>)
    requires SortedByRank(f, s)
    requires forall c :: c in f <==> c in s
    requires forall c :: c in t <==> c in s
    requires forall j :: 0 <= j < |s| ==> t[s[j]] == Entry(f[s[j]], Code(j + 1))
    ensures forall c :: c in t ==> c in f && t[c] == RankedTable(f)[c]
  {
    forall c | c in t ensures c in f && t[c] == RankedTable(f)[c] {
      var j :| 0 <= j < |s| && s[j] == c;
      SortedEntry(f, s, j);
    }
  }

  /** In a rank-sorted listing of all the keys, the symbol at index j gets the pool codeword of rank j + 1. */
  lemma SortedEntry(f: map<char, int>, s: seq<char>, j: int)
    requires SortedByRank(f, s)
    requires forall c :: c in f <==> c in s
    requires 0 <= j < |s|
    ensures RankedTable(f)[s[j]] == Entry(f[s[j]], Code(j + 1))
  {
    SortedRankIsIndex(f, s, j);
  }

  /** Every nonempty key set has a first symbol in rank order. */
  lemma {:induction false} MinimumExists(f: map<char, int>, keys: set<char>) returns (m: char)
    requires keys != {} && keys <= f.Keys
    ensures m in keys && forall d :: d in keys && d != m ==> Before(f, m, d)
    decreases keys
  {
    var x :| x in keys;
    if keys == {x} {
      m := x;
    } else {
      var m' := MinimumExists(f, keys - {x});
      m := if Before(f, x, m') then x else m';
      forall d | d in keys && d != m ensures Before(f, m, d) {
        if d != x && d != m' {
          assert Before(f, m', d);
        }
      }
    }
  }

  /**
   * The sort of the key list with the source's comparator, done by taking the
   * first remaining symbol in rank order until none is left.
   */
  method SortByRank(f: map<char, int>, keys: set<char>) returns (sorted: seq<char>)
    requires keys <= f.Keys
    ensures SortedByRank(f, sorted)
    ensures forall c :: c in sorted <==> c in keys
  {
    sorted := [];
    var rest := keys;
    while rest != {}
      invariant rest <= keys
      invariant forall c :: c in keys <==> c in sorted || c in rest
      invariant forall c :: c in sorted ==> c !in rest
      invariant SortedByRank(f, sorted)
      invariant forall i, d :: 0 <= i < |sorted| && d in rest ==> Before(f, sorted[i], d)
      decreases rest
    {
      ghost var least := MinimumExists(f, rest);
      var m :| m in rest && forall d :: d in rest && d != m ==> Before(f, m, d);
      sorted := sorted + [m];
      rest := rest - {m};
    }
  }
}
