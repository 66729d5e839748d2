/**
 * The compressed triple types, the sorted triple store with its membership
 * test, and the file extensions of compressed and uncompressed datasets
 * (src/rdf/triple_compressor/mod.rs).
 */
module TripleStore {
  import opened Common
  import opened Words

  /** A term's id: the hash of its bytes. */
  type TripleElementId = u64

  /** A triple's id: the hash of its three element ids. */
  type TripleId = u64

  /** A compressed triple is exactly three element ids. */
  datatype CompressedTriple = CompressedTriple(s: TripleElementId, p: TripleElementId, o: TripleElementId)

  /** The three byte strings of a triple as it appears in an N-Triples line. */
  datatype RawTriple = RawTriple(s: Bytes, p: Bytes, o: Bytes)

  const COMPRESSED_TRIPLE_FILE_EXTENSION: Bytes := Ascii("compressed_nt")
  const UNCOMPRESSED_TRIPLE_FILE_EXTENSION: Bytes := Ascii("nt")

  /** `size_of::<CompressedTriple>()`: three machine words. */
  const TRIPLE_SIZE: nat := 3 * WORD_SIZE

  /** A compressed dataset file: each triple as its three ids, one machine word each, in order. */
  function TriplesBytes(ts: seq<CompressedTriple>): (r: Bytes)
    ensures |r| == |ts| * TRIPLE_SIZE
  {
    if ts == [] then []
    else TriplesBytes(ts[..|ts| - 1]) + Word(ts[|ts| - 1].s) + Word(ts[|ts| - 1].p) + Word(ts[|ts| - 1].o)
  }

  /** The triples of a file, three words each, read from the back (only whole triples are read). */
  function DecodeTriples(file: Bytes): seq<CompressedTriple>
    decreases |file|
  {
    if |file| < TRIPLE_SIZE then []
    else
      var n := |file| - TRIPLE_SIZE;
      DecodeBound(file[n..n + 8]);
      DecodeBound(file[n + 8..n + 16]);
      DecodeBound(file[n + 16..]);
      Pow256Word();
      DecodeTriples(file[..n]) + [CompressedTriple(DecodeLe(file[n..n + 8]), DecodeLe(file[n + 8..n + 16]), DecodeLe(file[n + 16..]))]
  }

  /**
   * `CompressedRdfTriples::load`: the file mapped as a slice of `[u64; 3]`;
   * `None` when its length is not a whole number of triples.
   */
  function LoadTriples(file: Bytes): (r: Option<seq<CompressedTriple>>)
    ensures r.Some? <==> |file| % TRIPLE_SIZE == 0
  {
    if |file| % TRIPLE_SIZE != 0 then None else Some(DecodeTriples(file))
  }

  /** The three words appended after `prefix` decode to the triple's ids, and leave `prefix` in front. */
  lemma TripleWords(prefix: Bytes, t: CompressedTriple)
    ensures var file, n := prefix + Word(t.s) + Word(t.p) + Word(t.o), |prefix|;
      && |file| == n + TRIPLE_SIZE && file[..n] == prefix
      && DecodeLe(file[n..n + 8]) == t.s && DecodeLe(file[n + 8..n + 16]) == t.p && DecodeLe(file[n + 16..]) == t.o
  {
    var file, n := prefix + Word(t.s) + Word(t.p) + Word(t.o), |prefix|;
    assert file[n..n + 8] == Word(t.s) && file[n + 8..n + 16] == Word(t.p) && file[n + 16..] == Word(t.o);
    WordRoundTrip(t.s);
    WordRoundTrip(t.p);
    WordRoundTrip(t.o);
  }

  /** The triples written one after the other decode to the same triples, in the same order. */
  lemma {:induction false} DecodeTriplesBytes(ts: seq<CompressedTriple>)
    ensures DecodeTriples(TriplesBytes(ts)) == ts
  {
    if ts != [] {
      var init, last := ts[..|ts| - 1], ts[|ts| - 1];
      DecodeTriplesBytes(init);
      TripleWords(TriplesBytes(init), last);
      assert ts == init + [last];
    }
  }

  /** A compressed file written triple by triple loads back as the same triples, in the same order. */
  lemma LoadTriplesBytes(ts: seq<CompressedTriple>)
    ensures LoadTriples(TriplesBytes(ts)) == Some(ts)
  {
    DecodeTriplesBytes(ts);
    WholeRecords(|ts|);
  }

  /** The order of `[u64; 3]`: lexicographic, subject id first, then predicate id, then object id. */
  predicate Less(a: CompressedTriple, b: CompressedTriple)
  {
    a.s < b.s
    || (a.s == b.s && a.p < b.p)
    || (a.s == b.s && a.p == b.p && a.o < b.o)
  }

  /** What `is_sorted` checks of a dataset (duplicates are allowed). */
  predicate Sorted(store: seq<CompressedTriple>)
  {
    forall i, j :: 0 <= i < j < |store| ==> !Less(store[j], store[i])
  }

  /**
   * `binary_search` between `lo` and `hi`: on a sorted store it finds `t`
   * exactly when `t` occurs there.
   */
  function SearchRange(store: seq<CompressedTriple>, t: CompressedTriple, lo: nat, hi: nat): (found: bool)
    requires lo <= hi <= |store|
    ensures Sorted(store) ==> (found <==> exists i :: lo <= i < hi && store[i] == t)
    decreases hi - lo
  {
    if lo == hi then false
    else
      var mid := lo + (hi - lo) / 2;
      if Less(store[mid], t) then SearchRange(store, t, mid + 1, hi)
      else if Less(t, store[mid]) then SearchRange(store, t, lo, mid)
      else true
  }

  /** `CompressedRdfTriples::contains`: membership in a sorted store; the store is only read. */
  function Contains(store: seq<CompressedTriple>, t: CompressedTriple): (found: bool)
    ensures Sorted(store) ==> (found <==> t in store)
  {
    SearchRange(store, t, 0, |store|)
  }

  /** The index of the last `.` of a file name. */
  function LastDot(name: Bytes): (r: Option<nat>)
    ensures r.Some? ==>
      (r.value < |name| && name[r.value] == DOT && forall j :: r.value < j < |name| ==> name[j] != DOT)
    ensures r.None? ==> forall j :: 0 <= j < |name| ==> name[j] != DOT
  {
    if name == [] then None
    else if name[|name| - 1] == DOT then Some(|name| - 1)
    else LastDot(name[..|name| - 1])
  }

  /** `Path::file_stem` of a file name: everything before its last `.`, unless that `.` is the first byte. */
  function FileStem(name: Bytes): Bytes
  {
    match LastDot(name)
    case None => name
    case Some(i) => if i == 0 then name else name[..i]
  }

  /** The file name that `Path::with_extension(ext)` gives a file named `name`. */
  function WithExtension(name: Bytes, ext: Bytes): Bytes
  {
    FileStem(name) + (if ext == [] then [] else [DOT] + ext)
  }

  /**
   * The compressor writes `stem.nt` to `stem.compressed_nt` beside it; a file
   * named just `.nt` has no extension and becomes `.nt.compressed_nt`.
   */
  lemma CompressedFileName(stem: Bytes)
    ensures var name := stem + [DOT] + UNCOMPRESSED_TRIPLE_FILE_EXTENSION;
      WithExtension(name, COMPRESSED_TRIPLE_FILE_EXTENSION)
        == (if stem == [] then name else stem) + [DOT] + COMPRESSED_TRIPLE_FILE_EXTENSION
  {
    var name := stem + [DOT] + UNCOMPRESSED_TRIPLE_FILE_EXTENSION;
    assert UNCOMPRESSED_TRIPLE_FILE_EXTENSION == [110, 116];
    assert LastDot(name) == Some(|stem|) by {
      assert name[..|name| - 1] == stem + [DOT] + [110];
      assert name[..|name| - 1][..|name| - 2] == stem + [DOT];
      assert LastDot(stem + [DOT]) == Some(|stem|);
    }
    assert name[..|stem|] == stem;
  }
}
