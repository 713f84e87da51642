# pso2_hashing: the candidate-space generator, in Dafny

This project models the part of `pso2_hashing` that produces the filenames to be
hashed into a rainbow table. It covers:

- **The grapheme builder** (`build_graphemes`). For each length n from 0 to the
  grapheme size, it repeats every character of the charset n times, takes the
  n-permutations (itertools `permutations`: distinct positions, lexicographic
  order) and removes repeats (`unique`). It then keeps the strings the filter
  accepts. Both copies of the builder, in the library and in the binary, are the
  same function here (`Graphemes.BuildGraphemes`).
- **The library's `PlaintextGenerator`**: `validate_permutation_bounds`,
  `take_str_slice`, `new`, `len`, `range` and the unfinished `get`. The comment
  on `get` (src/rainbow_table.rs:101-111) sketches an index packing in two steps:
  `a = pi + si * p_max`, then `i = a + G * s_max`. The module `Addressing` keeps
  the first step. It places the grapheme digits above it with weight
  p_max·s_max, not s_max as the second step writes, because `a` already takes
  p_max·s_max values and the literal weight makes distinct addresses share an
  index (see Findings). This is design intent, not current behaviour. The digit
  order is the prefix index (least significant), then the suffix index, then one
  digit per grapheme position.
- **The `pso2_rainbow` binary's `main`**:
  - its configuration and its regex filter, written as the explicit predicate
    "no run of two or more `_` and no digit-letter-digit window";
  - the tuple length 6/3 − 0/3 = 2 and the printed figure;
  - the enumeration `prefixes × (graphemes.permutations(k) × suffixes)`, with
    prefix outermost and suffix innermost;
  - the assembly of each item into one string;
  - `hash_string`'s narrowing of each character to one byte, fed to an MD5
    hasher object;
  - the loop that splits the enumeration into chunks of 100000, hashes each
    chunk, splits the records into sub-batches of 10000, spawns one insert per
    sub-batch and awaits them all before taking the next chunk.

Modules, one per file:

| module | contents |
|---|---|
| `Wrappers` | `Option` |
| `Seqs` | `Flatten`, `Filter` (the `filter_map` step), `Pairwise`, `NoDuplicates` |
| `Combinatorics` | `Permutations` (itertools `permutations`), `CartesianPower`, `Pow`, falling factorial `Falling`, arithmetic lemmas |
| `Itertools` | `Unique`, `Product` (`cartesian_product`), `Chunks`, `Reduce` |
| `Graphemes` | `build_graphemes` and what it promises |
| `RainbowTable` | `PlaintextGenerator` and its methods |
| `Addressing` | the intended mixed-radix `Encode`/`Decode` for `get` |
| `Hashing` | the byte narrowing, the `Hasher` class, `hash_string` |
| `Pso2Rainbow` | `main`: configuration, filter, enumeration, assembly, the hash-and-insert loop |

MD5 is a parameter `md5: seq<byte> -> Digest`, which stands for any function
from bytes to a 16-byte digest. The database inserts appear only as the
sequence of sub-batches handed over, in the order they are awaited.

## Model

In the table, #x is the number of elements of x: #P prefixes, #S suffixes, #G graphemes.

| member | source | states |
|---|---|---|
| Graphemes.GraphemesMember | src/rainbow_table.rs:5-33 | A string is a grapheme exactly when it has at most `grapheme_size` characters, all from the charset, and the filter accepts it (soundness and completeness). |
| Graphemes.GraphemesNoDuplicates | src/rainbow_table.rs:10-32 | No grapheme appears twice, even when the charset repeats a character. |
| Graphemes.GraphemesByLength | src/rainbow_table.rs:10-11 | Grapheme lengths never decrease along the output: all length-0 entries, then length 1, and so on. |
| Graphemes.EmptyGraphemeIff | src/rainbow_table.rs:10-31 | The empty string is a grapheme exactly when the filter accepts it. |
| Graphemes.LevelSpec | src/rainbow_table.rs:12-22 | One level (each character repeated n times, its n-permutations, then `unique`) holds exactly the length-n strings over the charset, each once. |
| Combinatorics.PermutationsSound | src/rainbow_table.rs:17 | Every k-permutation has k elements and uses no element more often than the input holds it. |
| Combinatorics.PermutationsComplete | src/rainbow_table.rs:14-17 | Every tuple that does not over-use an element is a permutation of its own length, which is why repeating each character n times covers every length-n string. |
| Combinatorics.PermutationsNoDuplicates | src/bin/pso2_rainbow.rs:202 | Over distinct elements, the k-permutations are pairwise distinct. |
| Combinatorics.PermutationsCount | src/bin/pso2_rainbow.rs:202 | There are n·(n−1)·…·(n−k+1) k-permutations of n elements, and none when n < k. |
| Combinatorics.CartesianPowerMember | src/rainbow_table.rs:19-21 | The Cartesian power holds exactly the length-k tuples over the items, repetition allowed. |
| Combinatorics.CartesianPowerNoDuplicates | src/rainbow_table.rs:19-21 | Over distinct items, the Cartesian power lists every k-tuple once. |
| Combinatorics.CartesianPowerCount | src/rainbow_table.rs:93 | The Cartesian power has #items^k tuples. |
| Combinatorics.FallingEqualsPowIff | src/bin/pso2_rainbow.rs:189-202 | For n > 0, the k-permutation count is at most n^k, and equal to it exactly when k ≤ 1. |
| Itertools.UniqueSpec | src/rainbow_table.rs:22 | `unique` keeps every element of its input and none twice. |
| Itertools.ProductAt | src/bin/pso2_rainbow.rs:196-204 | Pair number i·#ys + j of the Cartesian product is (xs[i], ys[j]), so the first factor varies slowest. |
| Itertools.ProductNoDuplicates | src/bin/pso2_rainbow.rs:196-204 | Duplicate-free factors give a duplicate-free Cartesian product: every pair is listed once. |
| Itertools.ProductComplete | src/bin/pso2_rainbow.rs:196-204 | Every pair drawn from the two factors is in their Cartesian product. |
| Itertools.Chunks | src/bin/pso2_rainbow.rs:205 | `chunks(n)` gives pieces that concatenate back to the input: none empty, at most n each, exactly n each except the last. |
| Itertools.ChunksCount | src/bin/pso2_rainbow.rs:226 | At most count·n elements fall into at most `count` chunks of n. |
| Itertools.Reduce | src/bin/pso2_rainbow.rs:218-219 | `reduce` returns a value exactly when its input is non-empty. |
| Seqs.Filter | src/rainbow_table.rs:24-31 | The filtered sequence holds exactly the input elements the predicate accepts. |
| RainbowTable.ValidatePermutationBounds | src/rainbow_table.rs:35-42 | Given g > 0, max ≥ min, and both multiples of g, the result (lo, hi) has lo ≤ hi, lo·g = min and hi·g = max. |
| RainbowTable.TakeStrSlice | src/rainbow_table.rs:44-48 | The owned copy of the list equals the input, element by element and in order. |
| RainbowTable.New | src/rainbow_table.rs:59-88 | Keeps both lists unchanged; the graphemes are exactly the filtered strings over the charset, without duplicates; `graphemes_per_str · grapheme_max_len = item_max_len`. |
| RainbowTable.LenIsTupleCount | src/rainbow_table.rs:90-94 | `len()` is the number of (prefix, grapheme tuple with repetition, suffix) triples. |
| RainbowTable.Range | src/rainbow_table.rs:96-98 | The range is `0..len()`: an index lies in it exactly when it is below `len()`. |
| RainbowTable.Get | src/rainbow_table.rs:100-113 | `get` returns the empty string for every index (the body is unfinished). |
| Addressing.DecodeEncode | src/rainbow_table.rs:101-111 | Every valid address (prefix, suffix, grapheme digits) packs below `len()` and unpacks to itself. |
| Addressing.EncodeDecode | src/rainbow_table.rs:101-111 | Every index below `len()` unpacks to a valid address that packs back to the index. |
| Addressing.EncodeAsWrittenCollides | src/rainbow_table.rs:107-108 | With at least 2 prefixes and 2 graphemes and k ≥ 1, the comment's literal `i = a + G * s_max` gives index #S for two distinct valid addresses: (#S mod #P, #S div #P, all digits 0) and (0, 0, digits 1, 0, …). |
| Addressing.AddressTupleInPower | src/rainbow_table.rs:101-104 | The grapheme tuple a valid address names is one of the tuples `len()` counts. |
| Hashing.HashInput | src/bin/pso2_rainbow.rs:16 | The hash input has one byte per character, and byte i is character i's code point mod 256. |
| Hashing.NarrowingLossless | src/bin/pso2_rainbow.rs:16 | On characters below U+0100, the hash input determines the string. |
| Hashing.NarrowingCollides | src/bin/pso2_rainbow.rs:16 | Above that, distinct strings share a hash input: "\u{161}" narrows like "a". |
| Hashing.Hasher.constructor | src/bin/pso2_rainbow.rs:15 | A new hasher has been fed nothing. |
| Hashing.Hasher.Update | src/bin/pso2_rainbow.rs:16 | `update` appends the data to what the hasher has been fed. |
| Hashing.HashString | src/bin/pso2_rainbow.rs:14-18 | `hash_string(s)` is MD5 of the narrowed bytes of s. |
| Pso2Rainbow.FilterFacts | src/bin/pso2_rainbow.rs:64 | The filter accepts "", "abc" and "0a", and rejects "0a1" (digit-letter-digit) and "a__" (a run of `_`). |
| Pso2Rainbow.MainGraphemesFiltered | src/bin/pso2_rainbow.rs:58-65 | With `main`'s charset and filter, every grapheme has at most 3 characters from the charset and contains neither `__` nor a digit-letter-digit window. "", "abc" and "0a" are graphemes; "0a1" is not. |
| Pso2Rainbow.GraphemesPerString | src/bin/pso2_rainbow.rs:175-186 | The grapheme tuple length is 6/3 − 0/3 = 2. |
| Pso2Rainbow.PlaintextsOrder | src/bin/pso2_rainbow.rs:196-204 | Item (i·#T + j)·#S + l of the enumeration is (prefix i, (tuple j, suffix l)), where T are the k-permutations: prefix outermost, suffix innermost. |
| Pso2Rainbow.PlaintextsCount | src/bin/pso2_rainbow.rs:196-204 | `main` emits #P·#S·#G!/(#G−k)! items. Every tuple has k graphemes and uses none more often than the list holds it. |
| Pso2Rainbow.PlaintextsNoDuplicates | src/bin/pso2_rainbow.rs:196-204 | With duplicate-free prefix, grapheme and suffix lists, no (prefix, tuple, suffix) triple is enumerated twice. |
| Pso2Rainbow.MainPlaintextsNoDuplicates | src/bin/pso2_rainbow.rs:72-204 | In `main`'s configuration no (prefix, tuple, suffix) triple is enumerated twice. |
| Pso2Rainbow.PrintedCountMatchesIff | src/bin/pso2_rainbow.rs:187-204 | With some prefix, suffix and grapheme, the emitted count is at most the printed #P·#S·#G^k, and equal to it exactly when k ≤ 1. |
| Pso2Rainbow.RepeatedTupleNotEmitted | src/bin/pso2_rainbow.rs:196-204 | For distinct graphemes and k ≥ 2, k copies of one grapheme form a tuple of the Cartesian power that the permutations never emit. |
| Pso2Rainbow.EmitsFewerThanPrinted | src/bin/pso2_rainbow.rs:187-204 | With a prefix, a suffix, distinct graphemes and k ≥ 2, fewer items are emitted than printed, and the repeated tuple is the missing kind. |
| Pso2Rainbow.MainEmitsFewerThanPrinted | src/bin/pso2_rainbow.rs:187-204 | In `main`'s configuration fewer items are emitted than printed, and the tuple ("abc", "abc") is counted but never drawn. |
| Pso2Rainbow.RepeatedPairStringNotHashed | src/bin/pso2_rainbow.rs:196-219 | For k = 2 and distinct graphemes no longer than x: if no non-empty prefix starts with x's first character and no suffix other than s, at least as long as s, ends x ++ x ++ s, then no item assembles to x ++ x ++ s. |
| Pso2Rainbow.MainAbcabcNotHashed | src/bin/pso2_rainbow.rs:72-219 | In `main`'s configuration no item assembles to "abcabc.ice", which the printed figure counts through prefix "", tuple ("abc", "abc") and suffix ".ice". |
| Pso2Rainbow.IntendedPlaintextsComplete | src/bin/pso2_rainbow.rs:187-194 | The enumeration with repetition has exactly the printed number of items and holds every (prefix, any k graphemes, suffix) triple. |
| Pso2Rainbow.IntendedPlaintextsNoDuplicates | src/bin/pso2_rainbow.rs:187-204 | With duplicate-free lists, the enumeration with repetition lists every triple exactly once. |
| Pso2Rainbow.Assemble | src/bin/pso2_rainbow.rs:213-220 | An item's plaintext is prefix ++ g1 ++ … ++ gk ++ suffix, and its length is the sum of the parts. The reduced list is never empty, so the `expect` cannot fire. |
| Pso2Rainbow.AssemblyNotInjective | src/bin/pso2_rainbow.rs:213-219 | Distinct items can assemble to the same plaintext: ("a", "bc") and ("ab", "c") both give "abc.ice". |
| Pso2Rainbow.Hashed | src/bin/pso2_rainbow.rs:221-222 | The hashed vector has one record (hash_string(c), c) per item c, in item order. |
| Pso2Rainbow.ScheduleSpec | src/bin/pso2_rainbow.rs:205-247 | Concatenating all sub-batches gives the hashed records of the whole enumeration, in order, each exactly once. Every sub-batch holds 1 to 10000 records. |
| Pso2Rainbow.ChunkBatchCount | src/bin/pso2_rainbow.rs:225-226 | A chunk splits into at most 10 sub-batches. |
| Pso2Rainbow.HashChunk | src/bin/pso2_rainbow.rs:209-222 | The hashing loop over a chunk produces exactly that chunk's hashed records, in order. |
| Pso2Rainbow.SpawnBatches | src/bin/pso2_rainbow.rs:225-243 | The spawn loop creates one handle per sub-batch of 10000, in order. |
| Pso2Rainbow.AwaitAll | src/bin/pso2_rainbow.rs:245-247 | Awaiting the handles appends their sub-batches in handle order. |
| Pso2Rainbow.RunPipeline | src/bin/pso2_rainbow.rs:207-248 | The chunk loop hands over exactly the chunk-by-chunk sub-batches of the enumeration. Each chunk's sub-batches are all awaited before the next chunk starts. |
| Pso2Rainbow.Generate | src/bin/pso2_rainbow.rs:187-205 | For any configuration, the printed figure is #P·#S·#G^k, and the persisted sub-batches are those of the permutation enumeration. |
| Pso2Rainbow.RunMain | src/bin/pso2_rainbow.rs:58-205 | `main` reports the grapheme count and the printed figure for k = 2, and persists the sub-batches of its enumeration. |

## Left out

- MD5 itself is not modelled. It is a foreign library, so it is the parameter `md5`; only the narrowing of characters to bytes is modelled.
- Rayon's `par_iter`/`collect_into_vec` is modelled as a sequential loop that keeps the order.
- The Tokio runtime is not modelled. Each spawned insert is taken to complete when its handle is awaited, in handle order, so concurrent interleaving is not captured.
- The connection pool, dotenv and environment reading (src/lib.rs) are left out: they are I/O.
- The database inserts are left out. `create_hash_mappings` is not part of this model, and `create_hash_mapping`/`process_error` are database plumbing. The model stops at the sub-batches handed over.
- `src/models.rs` has no behaviour. A hash record is a (digest, string) pair.
- The `PSO2RainbowTable` struct has fields only, and is left out.
- `range`'s unused `output_len` parameter is left out.
- The regex engine is left out; an explicit predicate replaces it. `\d` is taken as the ASCII digits. Rust's `\d` also matches other Unicode digits, but the charset holds only ASCII characters.
- The `println!` diagnostics are left out. `RunMain` returns the grapheme count and the printed figure instead.
- `usize` overflow in `len()`, in `pow` and in the printed figure is not modelled, and neither are the `as u32` exponent casts: the model uses unbounded naturals.
- RainbowTable.Range: requires `len()` to fit in a `u64`, instead of modelling the truncating `as u64` cast.
- The `debug_assert!(grapheme_size >= 1)` in the library's builder is not a precondition of `BuildGraphemes`. The binary's copy of the builder has no such check (`main` makes it at src/bin/pso2_rainbow.rs:59), and the function is well defined for size 0.
- The other `debug_assert!`s are kept as preconditions: those of `validate_permutation_bounds`, and `new`'s divisibility.
- Itertools.UniqueSpec: states membership and distinctness, not that `unique` keeps the first occurrence of each element in input order. Nothing downstream depends on the order within a level.
- Addressing: `get` does not implement any packing yet. Its comment gives two steps, `a = pi + si * p_max` (line 107) and `i = a + G * s_max` (line 108). `Encode` keeps line 107 and departs from line 108: it weights the grapheme digits by p_max·s_max, so the packing is injective (`DecodeEncode`). `EncodeAsWritten` is line 108 taken literally, and `EncodeAsWrittenCollides` shows where it is not injective. Both are readings of the intent, not current behaviour.
- `src/rainbow_table.rs` is not declared as a module in `src/lib.rs`, so nothing calls the library generator. It is modelled anyway.
- Where the two sources differ, the model follows the code. The `len()` of `PlaintextGenerator`, the printed figure and the comment in `build_graphemes` all count tuples with repetition. The enumeration in `main` uses `permutations(k)`, which never reuses a position. `Plaintexts` models the code; the difference is the finding below.

## Findings

| source | as written | input that shows it | evidently intended | confidence | as-written member | corrected member |
|---|---|---|---|---|---|---|
| src/bin/pso2_rainbow.rs:187-204 | The printed "Strings to generate" is #P·#S·#G^k. The enumeration draws grapheme tuples with `permutations(k)`, which never reuses a position, so it emits only #P·#S·#G!/(#G−k)! items. | `main`'s own configuration (k = 2): the tuple ("abc", "abc") is counted but never drawn, and the string "abcabc.ice" (prefix "", suffix ".ice") is the plaintext of no item (`MainAbcabcNotHashed`). | Grapheme tuples drawn with repetition (the Cartesian power), as `len()` and the printed figure count them. | not executed | Pso2Rainbow.MainEmitsFewerThanPrinted | Pso2Rainbow.IntendedPlaintextsComplete |
| src/rainbow_table.rs:107-108 | The comment on `get` packs an address as `a = pi + si * p_max`, then `i = a + G * s_max`. | `main`'s lists: p_max = 8 and s_max = 9, with k = 2 and at least two graphemes. Address (1, 1, [0, 0]) and address (0, 0, [1, 0]) both give i = 9. | Weight G by p_max·s_max, the number of values `a` takes, so every address has its own index. | not executed | Addressing.EncodeAsWrittenCollides | Addressing.DecodeEncode |
