/**
 * The adaptive coder object: its code table, frequency map, code pool and
 * accumulated stream, and the operations that update them in place.
 */
module Huffman {
  import opened Wrappers
  import opened CodeAssigner
  import opened SymbolTable
  import opened Coder

  /**
   * The scan of the table for the entry whose codeword is `currentCode`:
   * the entries are visited in an order the dictionary does not fix, and
   * the first hit ends the scan.
   */
  method FindSymbol(codeTable: map<char, Entry>, currentCode: string) returns (found: Option<char>)
    requires AssignsPool(codeTable)
    ensures found == Lookup(codeTable, currentCode)
  {
    var unvisited := codeTable.Keys;
    while unvisited != {}
      invariant unvisited <= codeTable.Keys
      invariant forall k :: k in codeTable && k !in unvisited ==> codeTable[k].code != currentCode
      decreases |unvisited|
    {
      var k :| k in unvisited;
      if codeTable[k].code == currentCode {
        LookupExact(codeTable, currentCode, k);
        return Some(k);
      }
      unvisited := unvisited - {k};
    }
    return None;
  }

  /**
   * The inner scan of the backward decoder: from the cursor `endIndex` down
   * to the start, each bit is appended to the code read so far and the table
   * is searched for it; the first hit gives the codeword's length and symbol.
   */
  method ScanBackward(codeTable: map<char, Entry>, encodedText: string, endIndex: int) returns (found: Option<Match>)
    requires AssignsPool(codeTable)
    requires 0 <= endIndex < |encodedText|
    ensures found == FirstMatch(codeTable, encodedText[..endIndex + 1], 1)
  {
    ghost var prefix := encodedText[..endIndex + 1];
    var currentCode := "";
    var i := endIndex;
    ghost var read: nat := 0;
    while i >= 0
      invariant -1 <= i <= endIndex && read == endIndex - i
      invariant currentCode == TailCode(prefix, read)
      invariant FirstMatch(codeTable, prefix, 1) == FirstMatch(codeTable, prefix, read + 1)
    {
      TailCodeStep(prefix, read);
      assert prefix[|prefix| - 1 - read] == encodedText[i];
      currentCode := currentCode + [encodedText[i]];
      var symbol := FindSymbol(codeTable, currentCode);
      if symbol.Some? {
        return Some(Match(endIndex - i + 1, symbol.value));
      }
      i := i - 1;
      read := read + 1;
    }
    return None;
  }

  /**
   * The shuffle of the alphabet list, in place: n runs down from the
   * length, and position n - 1 is swapped with a position k <= n - 1. The
   * source draws k from its random generator; here it is any such index.
   */
  method Shuffle(list: seq<char>) returns (shuffled: seq<char>)
    ensures multiset(shuffled) == multiset(list)
  {
    shuffled := list;
    var n := |shuffled|;
    while n > 1
      invariant 0 <= n <= |shuffled| == |list|
      invariant multiset(shuffled) == multiset(list)
    {
      n := n - 1;
      var k :| 0 <= k <= n;
      var value := shuffled[k];
      shuffled := shuffled[k := shuffled[n]];
      shuffled := shuffled[n := value];
    }
  }

  /** The pool holds, from its start, the codeword of rank j + 1 at position j. */
  ghost predicate PoolReady(codes: seq<string>)
  {
    |codes| >= N && forall j :: 0 <= j < N ==> codes[j] == Code(j + 1)
  }

  /**
   * The dealing loop of the initialisation: the symbol at position i of
   * `order` gets count 0 and codeword `Code(i + 1)`, which is also appended
   * to the pool.
   */
  method DealCodes(order: seq<char>, frequencies: map<char, int>, pool: seq<string>)
    returns (table: map<char, Entry>, dealt: map<char, int>, grown: seq<string>)
    requires Distinct(order)
    ensures forall c :: c in table <==> c in order
    ensures forall j :: 0 <= j < |order| ==> table[order[j]] == Entry(0, Code(j + 1))
    ensures forall c :: c in dealt <==> c in frequencies || c in order
    ensures forall c :: c in order ==> dealt[c] == 0
    ensures grown == pool + PoolCodes(|order|)
  {
    table, dealt, grown := map[], frequencies, pool;
    for i := 0 to |order|
      invariant forall c :: c in table <==> c in order[..i]
      invariant forall j :: 0 <= j < i ==> order[j] in table && table[order[j]] == Entry(0, Code(j + 1))
      invariant forall c :: c in dealt <==> c in frequencies || c in order[..i]
      invariant forall c :: c in order[..i] ==> dealt[c] == 0
      invariant grown == pool + PoolCodes(i)
    {
      assert order[..i + 1] == order[..i] + [order[i]];
      var code := GenerateCode(i + 1);
      table := table[order[i] := Entry(0, code)];
      dealt := dealt[order[i] := 0];
      grown := grown + [code];
    }
    assert order[..|order|] == order;
  }

  /**
   * The state of a built coder: every symbol has a count and exactly one
   * pool codeword, and the table's counts are the frequencies.
   */
  ghost predicate Built(table: map<char, Entry>, frequencies: map<char, int>, codes: seq<string>)
  {
    && PoolReady(codes)
    && frequencies.Keys == Symbols
    && AssignsPool(table)
    && (forall c :: c in table ==> table[c].count == frequencies[c])
  }

  /**
   * Dealing the pool codewords out along a shuffled alphabet with all
   * counts 0, and appending the pool to the earlier one, builds the coder.
   */
  lemma DealtTableIsBuilt(s: seq<char>, table: map<char, Entry>, frequencies: map<char, int>, oldCodes: seq<string>)
    requires |s| == N && Distinct(s) && forall c :: c in s <==> c in Symbols
    requires forall c :: c in table <==> c in s
    requires forall j :: 0 <= j < |s| ==> table[s[j]] == Entry(0, Code(j + 1))
    requires frequencies.Keys == Symbols && forall c :: c in frequencies ==> frequencies[c] == 0
    requires oldCodes == [] || PoolReady(oldCodes)
    ensures Built(table, frequencies, oldCodes + PoolCodes(N))
  {
    ListedTableAssignsPool(s, table);
    var codes := oldCodes + PoolCodes(N);
    forall j | 0 <= j < N ensures codes[j] == Code(j + 1) {
      if oldCodes != [] {
        assert codes[j] == oldCodes[j];
      }
    }
    forall c | c in table ensures table[c].count == frequencies[c] {
      var j :| 0 <= j < |s| && s[j] == c;
    }
  }

  /**
   * The body of the re-ranking: sorts the table's keys by the rank order
   * and gives the j-th of them its count and the j-th pool codeword.
   */
  method BuildRankedTable(f: map<char, int>, keys: set<char>, pool: seq<string>) returns (newCodeTable: map<char, Entry>)
    requires PoolReady(pool) && f.Keys == Symbols && keys == Symbols
    ensures newCodeTable == RankedTable(f)
  {
    var sortedList := SortByRank(f, keys);
    SortedLength(f, sortedList);
    AlphabetFacts();
    newCodeTable := map[];
    for j := 0 to |sortedList|
      invariant forall c :: c in newCodeTable <==> c in sortedList[..j]
      invariant forall i :: 0 <= i < j ==> sortedList[i] in newCodeTable && newCodeTable[sortedList[i]] == Entry(f[sortedList[i]], pool[i])
    {
      var symbol := sortedList[j];
      assert forall i :: 0 <= i < j ==> sortedList[i] != symbol;
      newCodeTable := newCodeTable[symbol := Entry(f[symbol], pool[j])];
    }
    assert sortedList[..|sortedList|] == sortedList;
    assert forall j :: 0 <= j < |sortedList| ==> pool[j] == Code(j + 1);
    SortedTableIsRanked(f, sortedList, newCodeTable);
  }

  /** A re-ranked table over a ready pool is a built coder with those frequencies. */
  lemma RankedBuilt(f: map<char, int>, codes: seq<string>)
    requires f.Keys == Symbols && PoolReady(codes)
    ensures Built(RankedTable(f), f, codes)
  {
    RankedAssignsPool(f);
  }

  class HuffmanCode {
    /** Symbol to (count, codeword); empty until the table is initialised. */
    var codeTable: map<char, Entry>
    var frequencyMap: map<char, int>
    /** The code pool: codes[j] is the codeword handed to the symbol of rank j. */
    var codes: seq<string>
    var encodedTextWhole: string

    /** The built state, on the object's fields. */
    ghost predicate Initialized()
      reads this
    {
      Built(codeTable, frequencyMap, codes)
    }

    /** The object invariant: everything empty before initialisation, `Initialized` after it. */
    ghost predicate Valid()
      reads this
    {
      if codes == [] then codeTable == map[] && frequencyMap == map[] else Initialized()
    }

    constructor ()
      ensures Valid()
      ensures codeTable == map[] && frequencyMap == map[] && codes == [] && encodedTextWhole == []
    {
      codeTable := map[];
      frequencyMap := map[];
      codes := [];
      encodedTextWhole := "";
    }

    /**
     * Builds the table: shuffles the alphabet, then gives the i-th shuffled
     * symbol count 0 and the codeword of rank i + 1, and appends that
     * codeword to the pool. The pool keeps whatever an earlier call put in
     * front of it.
     */
    method InitializeCodeTable()
      requires codes == [] || PoolReady(codes)
      requires frequencyMap.Keys <= Symbols
      modifies this
      ensures Initialized()
      ensures frequencyMap.Keys == Symbols && forall c :: c in frequencyMap ==> frequencyMap[c] == 0
      ensures codes == old(codes) + PoolCodes(N)
      ensures encodedTextWhole == old(encodedTextWhole)
    {
      var asciiChars := Shuffle(Alphabet);
      PermutedAlphabet(asciiChars);
      ghost var oldCodes := codes;
      var table, frequencies, pool := DealCodes(asciiChars, frequencyMap, codes);
      assert frequencies.Keys == Symbols;
      DealtTableIsBuilt(asciiChars, table, frequencies, oldCodes);
      codeTable, frequencyMap, codes := table, frequencies, pool;
    }

    /**
     * Re-ranking: the symbols sorted by the rank order get the pool codewords
     * in pool order. The new table depends only on the frequencies, whatever
     * the old table was, so a second call with unchanged frequencies leaves
     * it unchanged.
     */
    method SortTable()
      requires PoolReady(codes) && frequencyMap.Keys == Symbols && codeTable.Keys == Symbols
      modifies this`codeTable
      ensures codeTable == RankedTable(frequencyMap)
    {
      codeTable := BuildRankedTable(frequencyMap, codeTable.Keys, codes);
    }

    /**
     * The forward decoder over the current table; it changes nothing. Each
     * bit extends the current code, and a code that is some symbol's
     * codeword emits that symbol and is cleared.
     */
    method DecompressBinaryInput(binaryInput: string) returns (decodedText: string)
      requires AssignsPool(codeTable)
      ensures decodedText == ForwardDecode(codeTable, binaryInput, [])
    {
      decodedText := [];
      var currentCode := [];
      for i := 0 to |binaryInput|
        invariant ForwardDecode(codeTable, binaryInput, []) == decodedText + ForwardDecode(codeTable, binaryInput[i..], currentCode)
      {
        assert binaryInput[i..][1..] == binaryInput[i + 1..];
        currentCode := currentCode + [binaryInput[i]];
        var found := FindSymbol(codeTable, currentCode);
        if found.Some? {
          decodedText := decodedText + [found.value];
          currentCode := [];
        }
      }
    }

    /**
     * Encodes one symbol: counts it, re-ranks, appends its new codeword
     * reversed to the stream, and decodes that codeword forward, which gives
     * back the symbol. A symbol outside the alphabet (or any symbol before
     * initialisation) fails the frequency lookup: None, and nothing changes.
     */
    method GenerateHuffmanCodes(c: char) returns (decodedSymbol: Option<string>)
      requires Valid()
      modifies this
      ensures Valid() && codes == old(codes)
      ensures decodedSymbol.None? <==> c !in old(frequencyMap)
      ensures decodedSymbol.None? ==>
        codeTable == old(codeTable) && frequencyMap == old(frequencyMap) && encodedTextWhole == old(encodedTextWhole)
      ensures decodedSymbol.Some? ==>
        && frequencyMap == Counted(old(frequencyMap), c)
        && codeTable == RankedTable(frequencyMap)
        && encodedTextWhole == old(encodedTextWhole) + Reverse(RankedTable(frequencyMap)[c].code)
        && decodedSymbol.value == [c]
    {
      if c !in frequencyMap {
        return None;
      }
      frequencyMap := Counted(frequencyMap, c);
      SortTable();
      assert Initialized() by {
        RankedBuilt(frequencyMap, codes);
      }
      var encodedText := codeTable[c].code;
      var invertedEncodedText := Reverse(encodedText);
      encodedTextWhole := encodedTextWhole + invertedEncodedText;
      var decoded := DecompressBinaryInput(encodedText);
      assert decoded == [c] by {
        ForwardDecodeOwnCode(codeTable, c);
      }
      decodedSymbol := Some(decoded);
    }

    /**
     * The backward decoder over a whole stream: from the cursor at the last
     * bit, reads bits backward until they form a codeword of the current
     * table; then puts its symbol in front of the text, decrements that
     * symbol's count, re-ranks and moves the cursor before the codeword. When
     * no codeword forms, the bit at the cursor is dropped.
     */
    method DecompressText(encodedText: string) returns (decompressedText: string)
      requires Initialized()
      modifies this
      ensures Initialized() && codes == old(codes) && encodedTextWhole == old(encodedTextWhole)
      ensures decompressedText == Decompress(old(codeTable), old(frequencyMap), encodedText, |encodedText| - 1, []).text
      ensures frequencyMap == Decompress(old(codeTable), old(frequencyMap), encodedText, |encodedText| - 1, []).freq
      ensures codeTable == Decompress(old(codeTable), old(frequencyMap), encodedText, |encodedText| - 1, []).table
    {
      decompressedText := "";
      var table, frequencies, pool := codeTable, frequencyMap, codes;
      var endIndex := |encodedText| - 1;
      ghost var whole := Decompress(table, frequencies, encodedText, endIndex, []);
      while endIndex >= 0
        modifies {}
        invariant -1 <= endIndex < |encodedText|
        invariant Built(table, frequencies, pool)
        invariant whole == Decompress(table, frequencies, encodedText, endIndex, decompressedText)
        decreases endIndex
      {
        var found := ScanBackward(table, encodedText, endIndex);
        if found.Some? {
          var k := found.value.symbol;
          var next := endIndex - found.value.len;
          var decremented := frequencies[k := frequencies[k] - 1];
          var reranked := BuildRankedTable(decremented, table.Keys, pool);
          DecompressAdvance(table, frequencies, encodedText, endIndex, found.value.len, k, decompressedText, decremented, next);
          DecompressSameTable(reranked, RankedTable(decremented), decremented, encodedText, next, [k] + decompressedText);
          RankedBuilt(decremented, pool);
          decompressedText := [k] + decompressedText;
          frequencies, table, endIndex := decremented, reranked, next;
        } else {
          DecompressMiss(table, frequencies, encodedText, endIndex, decompressedText);
          endIndex := endIndex - 1;
        }
      }
      codeTable, frequencyMap := table, frequencies;
    }

    /**
     * One iteration of the driver's loop: encodes `input[i]` when the fields
     * hold the encoder state after the first i symbols, and leaves the state
     * after the first i + 1, with the table re-ranked.
     */
    method EncodeNext(ghost f: map<char, int>, ghost e: string, input: string, i: nat)
      requires Initialized() && f.Keys == Symbols
      requires forall j :: 0 <= j < |input| ==> input[j] in Symbols
      requires i < |input| && Coded(frequencyMap, encodedTextWhole) == EncodeText(f, e, input[..i])
      modifies this
      ensures Initialized() && codes == old(codes)
      ensures codeTable == RankedTable(frequencyMap)
      ensures Coded(frequencyMap, encodedTextWhole) == EncodeText(f, e, input[..i + 1])
    {
      ghost var g, st := frequencyMap, encodedTextWhole;
      var c := input[i];
      var decoded := GenerateHuffmanCodes(c);
      EncodeTextExtend(f, e, input, i, c, g, st, frequencyMap, encodedTextWhole);
    }

    /**
     * The driver's loop: encodes each symbol of `input` in turn. The fields
     * end up holding the functional encoder's state for `input`, so the
     * backward decoder over the new stream, from the re-ranked table, yields
     * `input` and then carries on over the earlier stream from the
     * frequencies before the loop. With nothing to encode, nothing changes.
     */
    method EncodeAll(input: string)
      requires Initialized()
      requires forall i :: 0 <= i < |input| ==> input[i] in Symbols
      modifies this
      ensures Initialized() && codes == old(codes)
      ensures Coded(frequencyMap, encodedTextWhole) == EncodeText(old(frequencyMap), old(encodedTextWhole), input)
      ensures |input| == 0 ==> frequencyMap == old(frequencyMap) && encodedTextWhole == old(encodedTextWhole)
      ensures |input| == 0 ==> codeTable == old(codeTable)
      ensures |input| > 0 ==> codeTable == RankedTable(frequencyMap)
      ensures DecodesBack(old(frequencyMap), old(encodedTextWhole), frequencyMap, encodedTextWhole, input, [])
    {
      ghost var start, begun := frequencyMap, encodedTextWhole;
      for i := 0 to |input|
        invariant Initialized() && codes == old(codes)
        invariant i == 0 ==> codeTable == old(codeTable)
        invariant i > 0 ==> codeTable == RankedTable(frequencyMap)
        invariant Coded(frequencyMap, encodedTextWhole) == EncodeText(start, begun, input[..i])
      {
        EncodeNext(start, begun, input, i);
      }
      EncodedWhole(start, begun, input, frequencyMap, encodedTextWhole);
    }

    /**
     * Decompresses the coder's stream when the decoding guarantee holds for
     * it: decoding from the current fields yields `input` and returns the
     * frequencies to `start`. This is the second half of `EncodeThenDecode`,
     * kept apart so that its proof does not see the encoder's state.
     */
    method DecompressEncoded(ghost start: map<char, int>, ghost input: string) returns (output: string)
      requires Initialized() && start.Keys == Symbols
      requires |input| > 0 ==> codeTable == RankedTable(frequencyMap)
      requires |input| == 0 ==> frequencyMap == start && encodedTextWhole == []
      requires DecodesBack(start, [], frequencyMap, encodedTextWhole, input, [])
      modifies this
      ensures output == input
      ensures Initialized() && codes == old(codes) && encodedTextWhole == old(encodedTextWhole)
      ensures frequencyMap == start
      ensures |input| > 0 ==> codeTable == RankedTable(start)
      ensures |input| == 0 ==> codeTable == old(codeTable)
    {
      ghost var t, g, st := codeTable, frequencyMap, encodedTextWhole;
      output := DecompressText(encodedTextWhole);
      DecodeEncoded(start, input, t, g, st);
    }

    /**
     * The driver: encodes each symbol of `input` in turn, then decodes the
     * whole stream. The decoded text is `input`, in its original order, the
     * frequencies are back where the encoding started, and the table is the
     * one re-ranked from them; the stream, ready to be packed, is the one
     * the encoder produced.
     */
    method EncodeThenDecode(input: string) returns (output: string)
      requires Initialized() && encodedTextWhole == []
      requires forall i :: 0 <= i < |input| ==> input[i] in Symbols
      modifies this
      ensures output == input
      ensures Initialized() && codes == old(codes)
      ensures frequencyMap == old(frequencyMap)
      ensures encodedTextWhole == EncodeText(old(frequencyMap), [], input).stream
      ensures |input| > 0 ==> codeTable == RankedTable(old(frequencyMap))
      ensures |input| == 0 ==> codeTable == old(codeTable)
    {
      ghost var start := frequencyMap;
      EncodeAll(input);
      output := DecompressEncoded(start, input);
    }
  }
}
