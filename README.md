# Adaptive unary-prefix coder (HuffmanCode)

This project models the `HuffmanCode` class of `Huffman_A_variation`. Despite
its name, it is an adaptive coder with a fixed pool of unary codewords, not a
Huffman tree builder:

- **Alphabet.** Every character from 32 to 127, plus `'\r'` and `'\n'`: 98
  symbols.
- **Code pool.** `codes[j]` is the codeword `1^j 0`, of length `j + 1`
  (`CodeAssigner.Code`).
- **Initial table.** `InitializeCodeTable` shuffles the alphabet, deals the
  pool out in that order and sets every frequency to 0.
- **Encoding.** `GenerateHuffmanCodes(c)` bumps the frequency of `c`. It then
  re-sorts the table: by descending frequency, ties broken by ascending
  character value, with the symbol of rank `j` getting `codes[j]`. Finally it
  appends the *reversed* codeword of `c` to `encodedTextWhole`.
- **Decoding.** `DecompressText` reads the stream from the end. It grows a
  candidate code bit by bit until it equals a table codeword, then prepends
  that symbol, decrements its frequency and re-sorts. A bit that starts no
  codeword is skipped.
- **Byte packing.** `ConvertToBytesAndWriteToFile` pads the stream with `'0'`
  bits and packs it into bytes.

## Modules

| file | module | contents |
|---|---|---|
| `wrappers.dfy` | `Wrappers` | `Option` |
| `code_assigner.dfy` | `CodeAssigner` | the codeword shape, `GenerateCode`, the pool, prefix-freeness |
| `symbol_table.dfy` | `SymbolTable` | the alphabet, the rank order, `RankedTable` (what `SortTable` builds), table lookup, sorting by rank |
| `coder.dfy` | `Coder` | encoding and decoding as functions, and the round-trip proof |
| `bit_packer.dfy` | `BitPacker` | padding and packing into bytes |
| `huffman.dfy` | `Huffman` | the class `HuffmanCode` with the source's four fields and its methods, each proved against the functions above |

## Central results

- **Round trip.** Encoding a string `s` and then decoding the whole stream
  gives `s` back, exactly and in order. Decoding also restores the
  frequencies that held before encoding (`Coder.RoundTrip`,
  `Huffman.HuffmanCode.EncodeThenDecode`).
- **Why it works.** The last codeword in the stream is always found first,
  and whole. Undoing its frequency bump and re-sorting gives back the table of
  one step earlier, so decoding retraces the encoder's states in reverse
  (`Coder.FirstMatchFindsLast`, `Coder.DecompressLast`).
- **Table properties.**
  - The re-sorted table assigns each pool codeword to exactly one symbol.
  - A symbol ranks ahead of another exactly when its codeword is shorter.
  - The sort's result does not depend on how the source's dictionary happens
    to be enumerated.

## Behaviour worth knowing

- **Alphabet size.** `Enumerable.Range(32, 127 - 32 + 1)` at
  `Program.cs:16-18` includes character 127 (DEL). With `'\r'` and `'\n'`
  the alphabet has 98 symbols.
- **Padding.** `ConvertToBytesAndWriteToFile` pads by `8 - len % 8` bits
  (`Program.cs:111-112`). That is always 1 to 8 bits, so an already aligned
  stream gains a whole zero byte, and the result is `len / 8 + 1` bytes.
- **Order of the decoded text.** The backward decoder prepends each symbol it
  finds (`Program.cs:146`), so the decoded text comes back in input order.

## Model

| member | source | states |
|---|---|---|
| `CodeAssigner.Code` | Huffman_A_variation/Huffman_A_variation/Program.cs:80-94 | the codeword of length `n`: `n - 1` ones followed by a single `'0'` |
| `CodeAssigner.GenerateCode` | Huffman_A_variation/Huffman_A_variation/Program.cs:80-94 | for any length of at least 1 it returns `Code(length)`; for a smaller length the loop never runs and it returns `"0"` |
| `CodeAssigner.PoolCodes` | Huffman_A_variation/Huffman_A_variation/Program.cs:31-37 | the pool built by initialization has one codeword per position, and position `j` holds the codeword of length `j + 1` |
| `CodeAssigner.CodeInjective` | Huffman_A_variation/Huffman_A_variation/Program.cs:80-94 | two generated codewords are equal exactly when their lengths are |
| `CodeAssigner.CodePrefixFree` | Huffman_A_variation/Huffman_A_variation/Program.cs:80-94 | no shorter codeword is a prefix of a longer one |
| `CodeAssigner.CodeIsBits` | Huffman_A_variation/Huffman_A_variation/Program.cs:88-92 | a codeword is made of bits and is never all ones |
| `CodeAssigner.CodeShape` | Huffman_A_variation/Huffman_A_variation/Program.cs:88-92 | any string of ones ending in a single `'0'` is the generated codeword of its length |
| `SymbolTable.AlphabetFacts` | Huffman_A_variation/Huffman_A_variation/Program.cs:16-18 | the alphabet list has 98 distinct characters, and they are exactly the symbol set |
| `SymbolTable.PermutedAlphabet` | Huffman_A_variation/Huffman_A_variation/Program.cs:20-29 | any rearrangement of the alphabet again lists the 98 symbols once each |
| `SymbolTable.Rank` | Huffman_A_variation/Huffman_A_variation/Program.cs:174-178 | a symbol's position in the sort order is below the number of symbols |
| `SymbolTable.RankMonotone` | Huffman_A_variation/Huffman_A_variation/Program.cs:174-178 | a symbol the comparator puts first (higher frequency, or equal frequency and smaller character) has a smaller rank |
| `SymbolTable.RankInjective` | Huffman_A_variation/Huffman_A_variation/Program.cs:174-178 | distinct symbols have distinct ranks, because the comparator is a total order |
| `SymbolTable.Before` | Huffman_A_variation/Huffman_A_variation/Program.cs:174-178 | a symbol the comparator puts first is a different symbol with at least the same frequency, and a strictly more frequent symbol is always put first |
| `SymbolTable.RankedAssignsPool` | Huffman_A_variation/Huffman_A_variation/Program.cs:180-188 | the re-sorted table gives every symbol a pool codeword (length 1 to 98), and no two symbols share a length |
| `SymbolTable.RankedTableEntries` | Huffman_A_variation/Huffman_A_variation/Program.cs:180-186 | the re-sorted table keeps every symbol and its current count, and gives it a codeword of ones closed by a single zero, no longer than the alphabet is large |
| `SymbolTable.PoolCovered` | Huffman_A_variation/Huffman_A_variation/Program.cs:181-185 | every pool codeword is held by some symbol of such a table |
| `SymbolTable.RankedOrder` | Huffman_A_variation/Huffman_A_variation/Program.cs:174-185 | one symbol sorts before another if and only if its codeword is strictly shorter |
| `SymbolTable.TopSymbolGetsShortestCode` | Huffman_A_variation/Huffman_A_variation/Program.cs:174-185 | the symbol with the strictly highest frequency gets the codeword `"0"` |
| `SymbolTable.Lookup` | Huffman_A_variation/Huffman_A_variation/Program.cs:63-71 | the dictionary scan finds a symbol whose codeword equals the candidate, and finds none exactly when no entry holds that codeword |
| `SymbolTable.LookupExact` | Huffman_A_variation/Huffman_A_variation/Program.cs:142-155 | in a table holding pool codewords, the scan yields `k` if and only if `k`'s codeword is the candidate, whatever the enumeration order |
| `SymbolTable.LookupAllOnes` | Huffman_A_variation/Huffman_A_variation/Program.cs:142-164 | a candidate of ones alone never matches, which is why leading ones are skipped |
| `SymbolTable.SortedUnique` | Huffman_A_variation/Huffman_A_variation/Program.cs:172-178 | any two lists of the same symbols sorted by the comparator are equal, so the dictionary's enumeration order cannot change the result |
| `SymbolTable.SortedTableIsRanked` | Huffman_A_variation/Huffman_A_variation/Program.cs:180-188 | the table filled from the sorted list, entry `j` getting `codes[j]` and the current frequency, is `RankedTable` of the frequencies |
| `SymbolTable.SortByRank` | Huffman_A_variation/Huffman_A_variation/Program.cs:172-178 | the result is sorted by the comparator and holds exactly the given symbols |
| `Coder.Reverse` | Huffman_A_variation/Huffman_A_variation/Program.cs:48 | the reversed codeword has the same length, with position `i` holding the bit at `|s| - 1 - i` |
| `Coder.Counted` | Huffman_A_variation/Huffman_A_variation/Program.cs:43 | only the counted symbol's frequency changes, by exactly one, and the symbol set is kept |
| `Coder.EncodeStep` | Huffman_A_variation/Huffman_A_variation/Program.cs:43-49 | encoding `c` raises only `c`'s count by one; it appends `Rank + 1` bits, a `'0'` followed by ones, and keeps the earlier stream as a prefix |
| `Coder.EncodeText` | Huffman_A_variation/Huffman_A_variation/Program.cs:240-246 | encoding a string keeps the symbol set, keeps the earlier stream as a prefix, and adds at least one bit per symbol |
| `Coder.EncodeTextCounts` | Huffman_A_variation/Huffman_A_variation/Program.cs:240-246 | after encoding `s`, each symbol's frequency has grown by its number of occurrences in `s` |
| `Coder.EncodeTextIsBits` | Huffman_A_variation/Huffman_A_variation/Program.cs:47-49 | the encoded stream contains only `'0'` and `'1'` |
| `Coder.ForwardDecode` | Huffman_A_variation/Huffman_A_variation/Program.cs:56-77 | the forward decoder emits at most one symbol per input bit, each a key of the table |
| `Coder.ForwardDecodeCodewords` | Huffman_A_variation/Huffman_A_variation/Program.cs:56-77 | decoding concatenated codewords, followed by ones that never complete a codeword, yields exactly those symbols |
| `Coder.ForwardDecodeOwnCode` | Huffman_A_variation/Huffman_A_variation/Program.cs:52 | the per-symbol check decodes a symbol's own codeword to that symbol |
| `Coder.TailCodeBackward` | Huffman_A_variation/Huffman_A_variation/Program.cs:137-139 | after `len` bits read from the end, the candidate holds exactly those bits, last bit first; one bit more appends the next earlier bit (`TailCodeStep`) |
| `Coder.FirstMatch` | Huffman_A_variation/Huffman_A_variation/Program.cs:137-160 | the backward scan stops at the shortest candidate that a table codeword equals; every shorter candidate has no match, and a miss means no length matches |
| `Coder.Decompress` | Huffman_A_variation/Huffman_A_variation/Program.cs:131-165 | the backward decoder keeps the symbol set of the frequencies, and adds to the text at most one symbol per bit it reads |
| `Coder.DecompressPrefix` | Huffman_A_variation/Huffman_A_variation/Program.cs:131-139 | decoding from a cursor depends only on the bits up to that cursor |
| `Coder.DecompressAllOnes` | Huffman_A_variation/Huffman_A_variation/Program.cs:131-165 | a run of ones decodes to nothing and leaves text, frequencies and table as they were |
| `Coder.FirstMatchFindsLast` | Huffman_A_variation/Huffman_A_variation/Program.cs:137-160 | reading backward from the end of a stream that ends in a reversed codeword finds exactly that codeword, in full |
| `Coder.DecompressLast` | Huffman_A_variation/Huffman_A_variation/Program.cs:126-168 | decoding a stream that one encode step extended recovers that step's symbol, and then decodes the earlier stream from the earlier frequencies and table; the decrement undoes the increment (`UnbumpRestores`) |
| `Coder.RoundTripStep` | Huffman_A_variation/Huffman_A_variation/Program.cs:144-151 | the decoding guarantee extends by one more encoded symbol |
| `Coder.RoundTrip` | Huffman_A_variation/Huffman_A_variation/Program.cs:240-248 | decoding the stream that encoding `s` appends yields `s`, in order, and then continues over the earlier stream from the frequencies before encoding; the driver's loop reaches it through `EncodedWhole` |
| `BitPacker.Padded` | Huffman_A_variation/Huffman_A_variation/Program.cs:111-112 | padding adds between 1 and 8 `'0'` bits (8 when already aligned), reaching a multiple of 8 and keeping the stream as a prefix |
| `BitPacker.ToByte` | Huffman_A_variation/Huffman_A_variation/Program.cs:118 | the byte's value is the chunk read as a base-2 number |
| `BitPacker.BitsOfValue` | Huffman_A_variation/Huffman_A_variation/Program.cs:117-118 | converting a chunk to its value and writing that value back as bits gives the chunk again |
| `BitPacker.ValueOfBits` | Huffman_A_variation/Huffman_A_variation/Program.cs:117-118 | writing a value as bits and reading them back gives the value again |
| `BitPacker.PackStep` | Huffman_A_variation/Huffman_A_variation/Program.cs:115-120 | adding the byte of the next chunk extends the bits the bytes hold by that chunk |
| `BitPacker.UnpackedByte` | Huffman_A_variation/Huffman_A_variation/Program.cs:115-120 | byte `k` holds the value of bits `8k` to `8k + 7` |
| `BitPacker.PackBytes` | Huffman_A_variation/Huffman_A_variation/Program.cs:109-123 | the stream packs into `len / 8 + 1` bytes whose bits are exactly the padded stream |
| `Huffman.FindSymbol` | Huffman_A_variation/Huffman_A_variation/Program.cs:142-155 | the dictionary scan with `break` returns the symbol whose codeword equals the candidate, and none if there is no such symbol |
| `Huffman.ScanBackward` | Huffman_A_variation/Huffman_A_variation/Program.cs:137-160 | the inner `for` loop returns the shortest matching span ending at `endIndex`, with its symbol, or none |
| `Huffman.Shuffle` | Huffman_A_variation/Huffman_A_variation/Program.cs:20-29 | the swap loop, for any random choices, returns a permutation of its input |
| `Huffman.DealCodes` | Huffman_A_variation/Huffman_A_variation/Program.cs:31-37 | symbol `j` of the shuffled order gets count 0 and the codeword of length `j + 1`; its frequency is 0; the pool grows by one codeword per symbol |
| `Huffman.DealtTableIsBuilt` | Huffman_A_variation/Huffman_A_variation/Program.cs:31-37 | the dealt table holds each pool codeword exactly once, over all 98 symbols |
| `Huffman.BuildRankedTable` | Huffman_A_variation/Huffman_A_variation/Program.cs:172-188 | sorting and rebuilding yields the ranked table of the current frequencies |
| `Huffman.RankedBuilt` | Huffman_A_variation/Huffman_A_variation/Program.cs:180-188 | a re-sorted table is again a well-formed table over the pool |
| `Huffman.HuffmanCode.constructor` | Huffman_A_variation/Huffman_A_variation/Program.cs:5-8 | a new coder has no table, no frequencies, an empty pool and an empty stream |
| `Huffman.HuffmanCode.InitializeCodeTable` | Huffman_A_variation/Huffman_A_variation/Program.cs:12-38 | after initialization every symbol has frequency 0 and a distinct pool codeword, the pool has grown by the 98 codewords, and the stream is unchanged |
| `Huffman.HuffmanCode.SortTable` | Huffman_A_variation/Huffman_A_variation/Program.cs:170-189 | the table becomes the ranked table of the current frequencies |
| `Huffman.HuffmanCode.DecompressBinaryInput` | Huffman_A_variation/Huffman_A_variation/Program.cs:56-77 | the result is the forward decoding of the input against the current table |
| `Huffman.HuffmanCode.GenerateHuffmanCodes` | Huffman_A_variation/Huffman_A_variation/Program.cs:41-54 | for a symbol outside the table nothing changes (the source throws). Otherwise its count rises by one, the table is re-sorted, the reversed codeword is appended, and the check decodes the codeword to the symbol itself |
| `Huffman.HuffmanCode.DecompressText` | Huffman_A_variation/Huffman_A_variation/Program.cs:126-168 | the decoded text, the frequencies and the table left behind are those of the backward decoder run over the whole stream |
| `Huffman.HuffmanCode.EncodeAll` | Huffman_A_variation/Huffman_A_variation/Program.cs:240-246 | after encoding every character, the frequencies and stream are `EncodeText` of the input from the starting state and the table is ranked from the final frequencies; decoding the stream yields the input before the decoding of the earlier stream |
| `Huffman.HuffmanCode.EncodeNext` | Huffman_A_variation/Huffman_A_variation/Program.cs:240-242 | one loop iteration moves the fields from the encoder state for `input[..i]` to the state for `input[..i + 1]`, with the table ranked from the new frequencies and the pool unchanged (the step is `EncodeTextExtend`, one more `EncodeStep`) |
| `Huffman.HuffmanCode.EncodeThenDecode` | Huffman_A_variation/Huffman_A_variation/Program.cs:238-248 | from a fresh stream, the output is exactly the input; the frequencies are back where they started; the stream is `EncodeText` of the input, ready to be packed; the table is ranked from the starting frequencies; the pool is unchanged |

## Left out

- `WriteHuffmanCodesToFile`, `ReadFile`, `File.WriteAllBytes` and all `Console` output and prompts in `Main`: these are I/O. The bytes `PackBytes` returns are what would be written.
- `GetWholeEncodedText` is the field `encodedTextWhole` itself.
- `Random`: the shuffle's index `k` is an arbitrary choice in `0..n`, so every result is covered.
- Dictionary enumeration order: the scan over `_codeTable` returns any entry that matches. Because codewords in the table are distinct (`LookupExact`), the choice cannot matter.
- `List.Sort`'s algorithm: `SortByRank` sorts by repeatedly picking the minimum. `SortedUnique` shows that any algorithm sorting by the same total comparator gives the same list.
- The unused read `_codeTable[symbol].Item2` at line 184 has no effect and is not modelled.
- The `null` table before initialization is modelled as the empty map.
- Integer overflow of frequency counts is not modelled: counts are unbounded integers.
- `Convert.ToByte`'s exception on a non-binary string: `PackBytes` requires a stream of bits, which every encoded stream is (`EncodeTextIsBits`).
- `GenerateHuffmanCodes`: a symbol outside the alphabet makes the source throw `KeyNotFoundException`. Here it returns `None` and changes nothing.
- `GenerateHuffmanCodes`: its new state is stated in terms of the bumped frequencies and the re-sorted table. `EncodeTextExtend` ties that state to `EncodeStep`.
- `EncodeAll`: requires every input character to be in the alphabet, because the source throws otherwise.
- `EncodeThenDecode`: requires a fresh stream, as in `Main`, and an initialized table.
- `InitializeCodeTable`: requires the state a constructed or initialized coder is in: frequencies only over alphabet symbols, and a pool that is empty or already complete.
- `DealCodes`: requires the shuffled order to list each symbol once, which is what the shuffle of the alphabet gives. It does not state that frequencies of keys outside the order are kept.
- `DecompressText` computes the decoded text, frequencies and table in local variables and assigns the fields once at the end. Nothing observes the fields during the loop, so this is not modelled.
- `PackBytes`: the value of each byte is stated separately, by `UnpackedByte`.
- There is no unpacking or unpadding step in the source, so none is modelled beyond the `Unpack` function used to state `PackBytes`.
