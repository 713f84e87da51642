/**
 * The `pso2_rainbow` binary: its configuration, its grapheme filter, the
 * enumeration of (prefix, grapheme tuple, suffix) triples, the assembly of
 * each triple into a plaintext, and the chunked hash-and-insert loop.
 */
module Pso2Rainbow {
  import opened Wrappers
  import opened Seqs
  import opened Combinatorics
  import opened Itertools
  import opened Graphemes
  import opened Hashing
  import opened RainbowTable

  // ---------------------------------------------------------------------------
  // Configuration
  // ---------------------------------------------------------------------------

  /** '/' comes from the prefixes; 'q', 'w', 'y', 'z' and '_' are left out. */
  const Charset: string := "abcdefghijklmnoprstuvx0123456789"
  const GraphemeMaxLength: nat := 3
  const PermutedMinLength: nat := 0
  const PermutedMaxLength: nat := 6
  const ChunkSize: nat := 100000
  const BatchSize: nat := 10000

  const Prefixes: seq<string> := [
    "",
    "sy_",
    "character/np_common_",
    "character/np_reboot_",
    "character/np_reboot_region_",
    "item/cache/it_name_",
    "quest/text_reboot_",
    "quest/text_reboot_world1_region"
  ]

  const Suffixes: seq<string> := [
    "common.ice",
    "reboot.ice",
    "_cache_appendix.ice",
    "_common_reboot.ice",
    "_common_text.ice",
    "_filelist.ice",
    "_info.ice",
    "_set_syrinx.ice",
    ".ice"
  ]

  // ---------------------------------------------------------------------------
  // The grapheme filter: the negation of the regex (_{2,}|\d[a-z]\d)
  // ---------------------------------------------------------------------------

  predicate IsDigit(c: char) { '0' <= c <= '9' }

  predicate IsLower(c: char) { 'a' <= c <= 'z' }

  /** `_{2,}` matches somewhere in `s`. */
  predicate HasUnderscoreRun(s: string)
  {
    exists i :: 0 <= i < |s| - 1 && s[i] == '_' && s[i + 1] == '_'
  }

  /** `\d[a-z]\d` matches somewhere in `s`. */
  predicate HasDigitLetterDigit(s: string)
  {
    exists i :: 0 <= i < |s| - 2 && IsDigit(s[i]) && IsLower(s[i + 1]) && IsDigit(s[i + 2])
  }

  predicate GraphemeFilter(s: string)
  {
    !(HasUnderscoreRun(s) || HasDigitLetterDigit(s))
  }

  function MainGraphemes(): seq<string>
  {
    BuildGraphemes(Charset, GraphemeMaxLength, GraphemeFilter)
  }

  /** Sample strings over the character set. */
  lemma CharsetFacts()
    ensures Over("abc", Charset) && Over("0a", Charset)
  {
    assert Charset[0] == 'a' && Charset[1] == 'b' && Charset[2] == 'c' && Charset[22] == '0';
  }

  /** The filter keeps strings without either pattern and drops strings with one. */
  lemma FilterFacts()
    ensures GraphemeFilter("") && GraphemeFilter("abc") && GraphemeFilter("0a")
    ensures !GraphemeFilter("0a1") && !GraphemeFilter("a__")
  {
    assert IsDigit("0a1"[0]) && IsLower("0a1"[1]) && IsDigit("0a1"[2]);
    assert "a__"[1] == '_' && "a__"[2] == '_';
  }

  /** With this filter no grapheme holds a run of '_' or a digit-letter-digit window. */
  lemma MainGraphemesFiltered()
    ensures forall x :: x in MainGraphemes() ==>
              |x| <= 3 && Over(x, Charset) && !HasUnderscoreRun(x) && !HasDigitLetterDigit(x)
    ensures "" in MainGraphemes() && "abc" in MainGraphemes() && "0a" in MainGraphemes()
    ensures "0a1" !in MainGraphemes()
  {
    CharsetFacts();
    FilterFacts();
    GraphemesMember(Charset, GraphemeMaxLength, GraphemeFilter);
  }

  /** The grapheme tuple length: (6 / 3) − (0 / 3), under the divisibility checks. */
  function GraphemesPerString(): (k: nat)
    ensures k == 2
  {
    var (lo, hi) := ValidatePermutationBounds(PermutedMinLength, PermutedMaxLength, GraphemeMaxLength);
    hi - lo
  }

  /** The "Strings to generate" figure printed before enumerating. */
  function PrintedCount(prefixes: seq<string>, graphemes: seq<string>, suffixes: seq<string>, k: nat): nat
  {
    |prefixes| * |suffixes| * Pow(|graphemes|, k)
  }

  // ---------------------------------------------------------------------------
  // Enumeration
  // ---------------------------------------------------------------------------

  /** One enumerated item: `(prefix, (grapheme tuple, suffix))`. */
  type Plaintext = (string, (seq<string>, string))

  /** `prefixes × (graphemes.permutations(k) × suffixes)`, prefix outermost, suffix innermost. */
  function Plaintexts(prefixes: seq<string>, graphemes: seq<string>, suffixes: seq<string>, k: nat): seq<Plaintext>
  {
    Product(prefixes, Product(Permutations(graphemes, k), suffixes))
  }

  function MainPlaintexts(): seq<Plaintext>
  {
    Plaintexts(Prefixes, MainGraphemes(), Suffixes, GraphemesPerString())
  }

  /**
   * The enumeration order: item number (i·|T| + j)·|S| + l is prefix i, grapheme
   * tuple j of the permutations T, suffix l.
   */
  lemma PlaintextsOrder(prefixes: seq<string>, graphemes: seq<string>, suffixes: seq<string>, k: nat,
                        i: nat, j: nat, l: nat)
    requires i < |prefixes| && j < |Permutations(graphemes, k)| && l < |suffixes|
    ensures var tuples := Permutations(graphemes, k);
            var n := i * (|tuples| * |suffixes|) + (j * |suffixes| + l);
            n < |Plaintexts(prefixes, graphemes, suffixes, k)| &&
            Plaintexts(prefixes, graphemes, suffixes, k)[n] == (prefixes[i], (tuples[j], suffixes[l]))
  {
    var tuples := Permutations(graphemes, k);
    ProductAt(tuples, suffixes, j, l);
    ProductAt(prefixes, Product(tuples, suffixes), i, j * |suffixes| + l);
  }

  /**
   * What is emitted: |prefixes|·|suffixes|·|G|!/(|G|−k)! items (0 when |G| < k),
   * each tuple of length k using no grapheme position twice.
   */
  lemma PlaintextsCount(prefixes: seq<string>, graphemes: seq<string>, suffixes: seq<string>, k: nat)
    ensures |Plaintexts(prefixes, graphemes, suffixes, k)| == |prefixes| * |suffixes| * Falling(|graphemes|, k)
    ensures forall n :: 0 <= n < |Plaintexts(prefixes, graphemes, suffixes, k)| ==>
              var t := Plaintexts(prefixes, graphemes, suffixes, k)[n].1.0;
              |t| == k && multiset(t) <= multiset(graphemes)
  {
    var tuples := Permutations(graphemes, k);
    PermutationsCount(graphemes, k);
    var ps := Plaintexts(prefixes, graphemes, suffixes, k);
    assert |ps| == |prefixes| * (Falling(|graphemes|, k) * |suffixes|);
    forall n | 0 <= n < |ps| ensures |ps[n].1.0| == k && multiset(ps[n].1.0) <= multiset(graphemes) {
      ProductMember(prefixes, Product(tuples, suffixes), n);
      var inner := ps[n].1;
      var m :| 0 <= m < |Product(tuples, suffixes)| && Product(tuples, suffixes)[m] == inner;
      ProductMember(tuples, suffixes, m);
      PermutationsSound(graphemes, k, inner.0);
    }
  }

  /** With duplicate-free lists, every (prefix, tuple, suffix) triple is emitted at most once. */
  lemma PlaintextsNoDuplicates(prefixes: seq<string>, graphemes: seq<string>, suffixes: seq<string>, k: nat)
    requires NoDuplicates(prefixes) && NoDuplicates(graphemes) && NoDuplicates(suffixes)
    ensures NoDuplicates(Plaintexts(prefixes, graphemes, suffixes, k))
  {
    PermutationsNoDuplicates(graphemes, k);
    ProductNoDuplicates(Permutations(graphemes, k), suffixes);
    ProductNoDuplicates(prefixes, Product(Permutations(graphemes, k), suffixes));
  }

  /**
   * The printed figure matches the emitted count exactly when k <= 1 (given
   * some prefix, suffix and grapheme); from k = 2 on fewer items are emitted.
   */
  lemma PrintedCountMatchesIff(prefixes: seq<string>, graphemes: seq<string>, suffixes: seq<string>, k: nat)
    requires |prefixes| > 0 && |suffixes| > 0 && |graphemes| > 0
    ensures |Plaintexts(prefixes, graphemes, suffixes, k)| <= PrintedCount(prefixes, graphemes, suffixes, k)
    ensures |Plaintexts(prefixes, graphemes, suffixes, k)| == PrintedCount(prefixes, graphemes, suffixes, k) <==> k <= 1
  {
    PlaintextsCount(prefixes, graphemes, suffixes, k);
    FallingEqualsPowIff(|graphemes|, k);
    var ps := |prefixes| * |suffixes|;
    var f, p := Falling(|graphemes|, k), Pow(|graphemes|, k);
    MulMonotone(ps, f, p);
    if f < p {
      MulStrict(ps, f, p);
    }
  }

  /**
   * The enumeration that the printed figure and `len()` count: grapheme tuples
   * drawn with repetition (the Cartesian power) where `main` uses `permutations(k)`.
   */
  function IntendedPlaintexts(prefixes: seq<string>, graphemes: seq<string>, suffixes: seq<string>, k: nat): seq<Plaintext>
  {
    Product(prefixes, Product(CartesianPower(graphemes, k), suffixes))
  }

  /**
   * The intended enumeration has exactly the printed number of items, and holds
   * every (prefix, tuple, suffix) triple whose tuple is any k graphemes.
   */
  lemma IntendedPlaintextsComplete(prefixes: seq<string>, graphemes: seq<string>, suffixes: seq<string>, k: nat)
    ensures |IntendedPlaintexts(prefixes, graphemes, suffixes, k)| == PrintedCount(prefixes, graphemes, suffixes, k)
    ensures forall i, t, j :: 0 <= i < |prefixes| && t in CartesianPower(graphemes, k) && 0 <= j < |suffixes| ==>
              (prefixes[i], (t, suffixes[j])) in IntendedPlaintexts(prefixes, graphemes, suffixes, k)
  {
    var tuples := CartesianPower(graphemes, k);
    IntendedPlaintextsCount(prefixes, graphemes, suffixes, k);
    forall i, t, j | 0 <= i < |prefixes| && t in tuples && 0 <= j < |suffixes|
      ensures (prefixes[i], (t, suffixes[j])) in IntendedPlaintexts(prefixes, graphemes, suffixes, k)
    {
      ProductComplete(tuples, suffixes, t, suffixes[j]);
      ProductComplete(prefixes, Product(tuples, suffixes), prefixes[i], (t, suffixes[j]));
    }
  }

  /** With duplicate-free lists, the intended enumeration lists every triple exactly once. */
  lemma IntendedPlaintextsNoDuplicates(prefixes: seq<string>, graphemes: seq<string>, suffixes: seq<string>, k: nat)
    requires NoDuplicates(prefixes) && NoDuplicates(graphemes) && NoDuplicates(suffixes)
    ensures NoDuplicates(IntendedPlaintexts(prefixes, graphemes, suffixes, k))
  {
    CartesianPowerNoDuplicates(graphemes, k);
    ProductNoDuplicates(CartesianPower(graphemes, k), suffixes);
    ProductNoDuplicates(prefixes, Product(CartesianPower(graphemes, k), suffixes));
  }

  lemma IntendedPlaintextsCount(prefixes: seq<string>, graphemes: seq<string>, suffixes: seq<string>, k: nat)
    ensures |IntendedPlaintexts(prefixes, graphemes, suffixes, k)| == PrintedCount(prefixes, graphemes, suffixes, k)
  {
    var tuples := CartesianPower(graphemes, k);
    CartesianPowerCount(graphemes, k);
    assert |prefixes| * (|tuples| * |suffixes|) == |prefixes| * |suffixes| * |tuples|;
  }

  /**
   * A tuple that repeats a grapheme is never emitted, although `len()` and the
   * printed figure count it: with distinct graphemes, k >= 2 copies of one
   * grapheme are in the Cartesian power and not among the permutations.
   */
  lemma RepeatedTupleNotEmitted(graphemes: seq<string>, k: nat, x: string)
    requires NoDuplicates(graphemes) && x in graphemes && k >= 2
    ensures seq(k, _ => x) in CartesianPower(graphemes, k)
    ensures seq(k, _ => x) !in Permutations(graphemes, k)
  {
    var t := seq(k, _ => x);
    CartesianPowerMember(graphemes, k, t);
    NoDuplicatesCount(graphemes, x);
    assert t == [x, x] + t[2..];
    assert multiset(t)[x] >= 2;
    if t in Permutations(graphemes, k) {
      PermutationsSound(graphemes, k, t);
    }
  }

  // ---------------------------------------------------------------------------
  // Assembly: [vec![prefix], g, vec![suffix]].concat().reduce(|a, b| a + &b)
  // ---------------------------------------------------------------------------

  function Join(accum: string, item: string): string
  {
    accum + item
  }

  lemma {:induction false} FoldJoin(acc: string, xs: seq<string>)
    ensures FoldLeft(Join, acc, xs) == acc + Flatten(xs)
    decreases |xs|
  {
    if xs != [] {
      FoldJoin(acc + xs[0], xs[1..]);
      assert (acc + xs[0]) + Flatten(xs[1..]) == acc + (xs[0] + Flatten(xs[1..]));
    }
  }

  /**
   * The plaintext of one item: prefix, then the graphemes in order, then suffix.
   * The reduced list has at least two pieces, so `expect` never fires.
   */
  function Assemble(t: Plaintext): (s: string)
    ensures s == t.0 + Flatten(t.1.0) + t.1.1
    ensures |s| == |t.0| + |Flatten(t.1.0)| + |t.1.1|
  {
    var pieces := [t.0] + t.1.0 + [t.1.1];
    var reduced := Reduce(Join, pieces);
    FoldJoin(pieces[0], pieces[1..]);
    assert pieces[1..] == t.1.0 + [t.1.1];
    FlattenAppend(t.1.0, [t.1.1]);
    reduced.value
  }

  /** Distinct items can give the same plaintext, so the enumeration may hash a string twice. */
  lemma AssemblyNotInjective()
    ensures var a, b := ("", (["a", "bc"], ".ice")), ("", (["ab", "c"], ".ice"));
            a != b && Assemble(a) == Assemble(b) == "abc.ice"
  {
    assert Flatten(["a", "bc"]) == "abc" by {
      assert Flatten(["bc"]) == "bc" + Flatten([]);
    }
    assert Flatten(["ab", "c"]) == "abc" by {
      assert Flatten(["c"]) == "c" + Flatten([]);
    }
    assert ["a", "bc"] != ["ab", "c"] by {
      assert ["a", "bc"][0] != ["ab", "c"][0];
    }
  }

  /** No prefix but the empty one starts with `c`. */
  predicate NoPrefixStarts(prefixes: seq<string>, c: char)
  {
    forall p :: p in prefixes && p != "" ==> p[0] != c
  }

  /** The only suffix at least as long as `s` that ends `w` is `s` itself. */
  predicate OnlySuffixEnding(suffixes: seq<string>, s: string, w: string)
  {
    forall sf :: sf in suffixes && |s| <= |sf| <= |w| && sf == w[|w| - |sf|..] ==> sf == s
  }

  /**
   * An item whose prefix cannot start `x + x + s`, whose two graphemes are no
   * longer than `x` and whose suffix can only end `x + x + s` by being `s`
   * assembles to `x + x + s` only with the tuple (x, x).
   */
  lemma PairAssembly(t: Plaintext, x: string, s: string)
    requires |x| > 0 && |t.1.0| == 2 && |t.1.0[0]| <= |x| && |t.1.0[1]| <= |x|
    requires t.0 == "" || t.0[0] != x[0]
    requires var w, sf := x + x + s, t.1.1;
             |s| <= |sf| <= |w| && sf == w[|w| - |sf|..] ==> sf == s
    ensures Assemble(t) == x + x + s ==> t.1.0 == [x, x]
  {
    var w, p, tup, sf := x + x + s, t.0, t.1.0, t.1.1;
    if Assemble(t) == w {
      assert Flatten(tup) == tup[0] + tup[1] by {
        assert tup[1..][1..] == [];
        assert Flatten(tup[1..]) == tup[1] + Flatten([]);
      }
      assert w[0] == x[0];
      assert p == "";
      assert w == tup[0] + tup[1] + sf;
      assert sf == w[|w| - |sf|..];
      assert sf == s;
      assert tup[0] + tup[1] == x + x;
      assert tup[0] == (x + x)[..|x|] && tup[1] == (x + x)[|x|..];
      assert tup == [tup[0], tup[1]];
    }
  }

  /**
   * The string-level shortfall: if no prefix can start `x + x + s` and no
   * other suffix can end it, then `x + x + s` is hashed by no item of the
   * k = 2 enumeration, although the printed figure counts the triple that
   * gives it.
   */
  lemma RepeatedPairStringNotHashed(prefixes: seq<string>, graphemes: seq<string>, suffixes: seq<string>,
                                    x: string, s: string, w: string)
    requires NoDuplicates(graphemes) && |x| > 0 && w == x + x + s
    requires forall g :: g in graphemes ==> |g| <= |x|
    requires NoPrefixStarts(prefixes, x[0])
    requires OnlySuffixEnding(suffixes, s, w)
    ensures forall t :: t in Plaintexts(prefixes, graphemes, suffixes, 2) ==> Assemble(t) != w
  {
    var ps := Plaintexts(prefixes, graphemes, suffixes, 2);
    var tuples := Permutations(graphemes, 2);
    forall t | t in ps ensures Assemble(t) != w {
      var n :| 0 <= n < |ps| && ps[n] == t;
      ProductMember(prefixes, Product(tuples, suffixes), n);
      var m :| 0 <= m < |Product(tuples, suffixes)| && Product(tuples, suffixes)[m] == t.1;
      ProductMember(tuples, suffixes, m);
      var tup := t.1.0;
      PermutationsSound(graphemes, 2, tup);
      assert tup[0] in multiset(tup) && tup[1] in multiset(tup);
      assert tup[0] in graphemes && tup[1] in graphemes;
      if x in graphemes {
        RepeatedPairNotEmitted(graphemes, x);
      }
      assert tup != [x, x];
      PairAssembly(t, x, s);
    }
  }

  // ---------------------------------------------------------------------------
  // Hashing and batching
  // ---------------------------------------------------------------------------

  /** `(hash_string(s), s)` for the plaintext s of every item, in order. */
  function Hashed(md5: seq<byte> -> Digest, items: seq<Plaintext>): (r: seq<HashRecord>)
    ensures |r| == |items|
    ensures forall i :: 0 <= i < |items| ==> r[i] == (HashOf(md5, Assemble(items[i])), Assemble(items[i]))
  {
    seq(|items|, i requires 0 <= i < |items| => (HashOf(md5, Assemble(items[i])), Assemble(items[i])))
  }

  /** The sub-batches handed to the database, chunk after chunk. */
  function Scheduled(md5: seq<byte> -> Digest, chunks: seq<seq<Plaintext>>): seq<seq<HashRecord>>
  {
    if chunks == [] then []
    else Scheduled(md5, chunks[..|chunks| - 1]) + Chunks(Hashed(md5, chunks[|chunks| - 1]), BatchSize)
  }

  /** The whole run's sub-batches: chunks of 100000 items, each split into sub-batches of 10000. */
  function Schedule(md5: seq<byte> -> Digest, items: seq<Plaintext>): seq<seq<HashRecord>>
  {
    Scheduled(md5, Chunks(items, ChunkSize))
  }

  lemma HashedAppend(md5: seq<byte> -> Digest, a: seq<Plaintext>, b: seq<Plaintext>)
    ensures Hashed(md5, a + b) == Hashed(md5, a) + Hashed(md5, b)
  {
    assert forall i :: 0 <= i < |b| ==> (a + b)[|a| + i] == b[i];
  }

  lemma {:induction false} ScheduledSpec(md5: seq<byte> -> Digest, chunks: seq<seq<Plaintext>>)
    ensures Flatten(Scheduled(md5, chunks)) == Hashed(md5, Flatten(chunks))
    ensures forall m :: 0 <= m < |Scheduled(md5, chunks)| ==> 0 < |Scheduled(md5, chunks)[m]| <= BatchSize
  {
    if chunks != [] {
      var init, last := chunks[..|chunks| - 1], chunks[|chunks| - 1];
      ScheduledSpec(md5, init);
      FlattenAppend(Scheduled(md5, init), Chunks(Hashed(md5, last), BatchSize));
      assert chunks == init + [last];
      FlattenAppend(init, [last]);
      assert Flatten([last]) == last;
      HashedAppend(md5, Flatten(init), last);
    }
  }

  /**
   * Every item is hashed exactly once and in order, whatever the chunking; every
   * sub-batch holds between 1 and 10000 records.
   */
  lemma ScheduleSpec(md5: seq<byte> -> Digest, items: seq<Plaintext>)
    ensures Flatten(Schedule(md5, items)) == Hashed(md5, items)
    ensures forall m :: 0 <= m < |Schedule(md5, items)| ==> 0 < |Schedule(md5, items)[m]| <= BatchSize
  {
    ScheduledSpec(md5, Chunks(items, ChunkSize));
  }

  /** A chunk splits into at most ten sub-batches. */
  lemma ChunkBatchCount(md5: seq<byte> -> Digest, items: seq<Plaintext>)
    ensures forall c :: c in Chunks(items, ChunkSize) ==> |Chunks(Hashed(md5, c), BatchSize)| <= 10
  {
    forall c | c in Chunks(items, ChunkSize) ensures |Chunks(Hashed(md5, c), BatchSize)| <= 10 {
      ChunksCount(Hashed(md5, c), BatchSize, 10);
    }
  }

  lemma ScheduledSnoc(md5: seq<byte> -> Digest, chunks: seq<seq<Plaintext>>, ci: nat)
    requires ci < |chunks|
    ensures Scheduled(md5, chunks[..ci + 1]) == Scheduled(md5, chunks[..ci]) + Chunks(Hashed(md5, chunks[ci]), BatchSize)
  {
    assert chunks[..ci + 1][..ci] == chunks[..ci];
  }

  /** The parallel map over one chunk, as a sequential order-preserving loop. */
  method HashChunk(md5: seq<byte> -> Digest, chunk: seq<Plaintext>) returns (hashes: seq<HashRecord>)
    ensures hashes == Hashed(md5, chunk)
  {
    hashes := [];
    var j := 0;
    while j < |chunk|
      invariant 0 <= j <= |chunk|
      invariant hashes == Hashed(md5, chunk[..j])
    {
      var s := Assemble(chunk[j]);
      var d := HashString(md5, s);
      hashes := hashes + [(d, s)];
      j := j + 1;
    }
    assert chunk[..j] == chunk;
  }

  /** `for batch in hashes.chunks(10000)`: one insert task per sub-batch, in order. */
  method SpawnBatches(hashes: seq<HashRecord>) returns (handles: seq<seq<HashRecord>>)
    ensures handles == Chunks(hashes, BatchSize)
  {
    handles := [];
    var rest := hashes;
    while rest != []
      invariant handles + Chunks(rest, BatchSize) == Chunks(hashes, BatchSize)
      decreases |rest|
    {
      var n := if |rest| < BatchSize then |rest| else BatchSize;
      ChunksStep(handles, rest, BatchSize, n);
      handles := handles + [rest[..n]];
      rest := rest[n..];
    }
  }

  /**
   * The loop of `main`: for each chunk, hash every item, split the records into
   * sub-batches, spawn one insert per sub-batch and await them all before taking
   * the next chunk. `persisted` lists the sub-batches in the order they are awaited.
   */
  method RunPipeline(md5: seq<byte> -> Digest, items: seq<Plaintext>) returns (persisted: seq<seq<HashRecord>>)
    ensures persisted == Schedule(md5, items)
  {
    var chunks := Chunks(items, ChunkSize);
    persisted := [];
    var ci := 0;
    while ci < |chunks|
      invariant 0 <= ci <= |chunks|
      invariant persisted == Scheduled(md5, chunks[..ci])
    {
      var hashes := HashChunk(md5, chunks[ci]);
      var handles := SpawnBatches(hashes);
      persisted := AwaitAll(persisted, handles);
      ScheduledSnoc(md5, chunks, ci);
      ci := ci + 1;
    }
    assert chunks[..ci] == chunks;
  }

  /** `for handle in handles { block_on(handle) }`: the sub-batches land in handle order. */
  method AwaitAll(persisted: seq<seq<HashRecord>>, handles: seq<seq<HashRecord>>) returns (r: seq<seq<HashRecord>>)
    ensures r == persisted + handles
  {
    r := persisted;
    var h := 0;
    while h < |handles|
      invariant 0 <= h <= |handles|
      invariant r == persisted + handles[..h]
    {
      r := r + [handles[h]];
      h := h + 1;
    }
    assert handles[..h] == handles;
  }

  /**
   * `main` without its I/O: build the graphemes, compute the tuple length and
   * the printed figure, then run the loop over the enumeration.
   */
  method RunMain(md5: seq<byte> -> Digest) returns (graphemeCount: nat, printed: nat, persisted: seq<seq<HashRecord>>)
    ensures graphemeCount == |MainGraphemes()|
    ensures printed == PrintedCount(Prefixes, MainGraphemes(), Suffixes, 2)
    ensures persisted == Schedule(md5, MainPlaintexts())
  {
    var graphemes := MainGraphemes();
    graphemeCount := |graphemes|;
    var k := GraphemesPerString();
    printed, persisted := Generate(md5, Prefixes, graphemes, Suffixes, k);
  }

  /** The body of `main` for any configuration: the printed figure, then the loop. */
  method Generate(md5: seq<byte> -> Digest, prefixes: seq<string>, graphemes: seq<string>, suffixes: seq<string>, k: nat)
    returns (printed: nat, persisted: seq<seq<HashRecord>>)
    ensures printed == PrintedCount(prefixes, graphemes, suffixes, k)
    ensures persisted == Schedule(md5, Plaintexts(prefixes, graphemes, suffixes, k))
  {
    printed := |prefixes| * |suffixes| * Pow(|graphemes|, k);
    persisted := RunPipeline(md5, Plaintexts(prefixes, graphemes, suffixes, k));
  }

  /**
   * With at least one prefix and suffix, distinct graphemes and k >= 2, fewer
   * items are emitted than announced: k copies of any grapheme are counted and
   * never generated.
   */
  lemma EmitsFewerThanPrinted(prefixes: seq<string>, graphemes: seq<string>, suffixes: seq<string>, k: nat, x: string)
    requires |prefixes| > 0 && |suffixes| > 0 && NoDuplicates(graphemes) && x in graphemes && k >= 2
    ensures |Plaintexts(prefixes, graphemes, suffixes, k)| < PrintedCount(prefixes, graphemes, suffixes, k)
    ensures seq(k, _ => x) in CartesianPower(graphemes, k)
    ensures seq(k, _ => x) !in Permutations(graphemes, k)
  {
    PrintedCountMatchesIff(prefixes, graphemes, suffixes, k);
    RepeatedTupleNotEmitted(graphemes, k, x);
  }

  /** The k = 2 instance of `RepeatedTupleNotEmitted`, written as a pair. */
  lemma RepeatedPairNotEmitted(graphemes: seq<string>, x: string)
    requires NoDuplicates(graphemes) && x in graphemes
    ensures [x, x] in CartesianPower(graphemes, 2)
    ensures [x, x] !in Permutations(graphemes, 2)
  {
    RepeatedTupleNotEmitted(graphemes, 2, x);
    assert seq(2, _ => x) == [x, x];
  }

  lemma ListSizes()
    ensures |Prefixes| == 8 && |Suffixes| == 9
  {
  }

  /** No prefix but the empty one starts with 'a'. */
  lemma PrefixesAvoidA()
    ensures NoPrefixStarts(Prefixes, 'a')
  {
  }

  /** Of the suffixes, only ".ice" ends "abcabc.ice" without cutting into "abcabc". */
  lemma SuffixesEndingAbcabcIce()
    ensures OnlySuffixEnding(Suffixes, ".ice", "abcabc.ice")
  {
  }

  lemma AbcabcIce()
    ensures "abcabc.ice" == "abc" + "abc" + ".ice" && |"abc"| == 3 && |".ice"| == 4 && |"abcabc.ice"| == 10
  {
  }

  /** The run's graphemes are distinct and at most three characters long. */
  lemma MainGraphemesShortDistinct()
    ensures NoDuplicates(MainGraphemes()) && forall g :: g in MainGraphemes() ==> |g| <= 3
  {
    MainGraphemesFiltered();
    GraphemesNoDuplicates(Charset, GraphemeMaxLength, GraphemeFilter);
  }

  /** The prefix and suffix lists hold no entry twice. */
  lemma ListsDistinct()
    ensures NoDuplicates(Prefixes) && NoDuplicates(Suffixes)
  {
  }

  /** The run hashes no (prefix, tuple, suffix) triple twice. */
  lemma MainPlaintextsNoDuplicates()
    ensures NoDuplicates(MainPlaintexts())
  {
    ListsDistinct();
    GraphemesNoDuplicates(Charset, GraphemeMaxLength, GraphemeFilter);
    PlaintextsNoDuplicates(Prefixes, MainGraphemes(), Suffixes, GraphemesPerString());
  }

  /**
   * The string "abcabc.ice", which the printed figure counts through prefix "",
   * tuple ("abc", "abc") and suffix ".ice", is the plaintext of no item of the run.
   */
  lemma MainAbcabcNotHashed()
    ensures forall t :: t in MainPlaintexts() ==> Assemble(t) != "abcabc.ice"
  {
    MainGraphemesShortDistinct();
    PrefixesAvoidA();
    SuffixesEndingAbcabcIce();
    AbcabcIce();
    assert "abc"[0] == 'a';
    RepeatedPairStringNotHashed(Prefixes, MainGraphemes(), Suffixes, "abc", ".ice", "abcabc.ice");
  }

  /**
   * In this configuration (k = 2) the run emits fewer items than it announces:
   * the tuple ("abc", "abc") is counted but never generated.
   */
  lemma MainEmitsFewerThanPrinted()
    ensures |MainPlaintexts()| < PrintedCount(Prefixes, MainGraphemes(), Suffixes, 2)
    ensures ["abc", "abc"] !in Permutations(MainGraphemes(), 2)
    ensures ["abc", "abc"] in CartesianPower(MainGraphemes(), 2)
  {
    MainGraphemesFiltered();
    GraphemesNoDuplicates(Charset, GraphemeMaxLength, GraphemeFilter);
    ListSizes();
    PrintedCountMatchesIff(Prefixes, MainGraphemes(), Suffixes, 2);
    RepeatedPairNotEmitted(MainGraphemes(), "abc");
  }
}
