/**
 * The frozen compressor state: the header of `(hash, start, end)` records and
 * the data segment they slice, how they are read from a state file, the
 * lookup of a term by its id, and the rendering of decompressed triples as
 * N-Triples lines (src/rdf/triple_compressor/decompressor.rs).
 */
module Decompressor {
  import opened Common
  import opened Words
  import opened TripleStore

  /** `size_of::<(TripleElementId, usize, usize)>()`. */
  const RECORD_SIZE: nat := 3 * WORD_SIZE

  /** The bytes that end a triple inside an update block and on an N-Triples line. */
  const TRIPLE_END: Bytes := [SPACE, DOT, SPACE]
  const LINE_END: Bytes := [SPACE, DOT, NEWLINE]

  /** One header record: a term id and the byte range of its text in the data segment. */
  datatype HeaderRecord = HeaderRecord(hash: TripleElementId, start: u64, end: u64)

  datatype RdfTripleDecompressor = RdfTripleDecompressor(header: seq<HeaderRecord>, dataSegment: Bytes)

  /**
   * Why a state file cannot be mapped: it is shorter than the header-size
   * word, shorter than the header it announces, or the announced header is
   * not a whole number of records.
   */
  datatype LoadError = MissingHeaderSize | TruncatedHeader | PartialRecord

  /** Header records in ascending id order, the order `binary_search_by_key` relies on. */
  predicate HeaderSorted(header: seq<HeaderRecord>)
  {
    forall i, j :: 0 <= i < j < |header| ==> header[i].hash <= header[j].hash
  }

  /** Header records in strictly ascending id order: each id has one record. */
  predicate HeaderStrictlySorted(header: seq<HeaderRecord>)
  {
    forall i, j :: 0 <= i < j < |header| ==> header[i].hash < header[j].hash
  }

  /** Every record slices inside the data segment, so `data_segment[start..end]` cannot panic. */
  predicate InBounds(d: RdfTripleDecompressor)
  {
    forall i :: 0 <= i < |d.header| ==> d.header[i].start <= d.header[i].end <= |d.dataSegment|
  }

  /** `binary_search_by_key` over the records between `lo` and `hi`. */
  function SearchRange(header: seq<HeaderRecord>, hash: TripleElementId, lo: nat, hi: nat): (r: Option<nat>)
    requires lo <= hi <= |header|
    ensures r.Some? ==> lo <= r.value < hi && header[r.value].hash == hash
    decreases hi - lo
  {
    if lo == hi then None
    else
      var mid := lo + (hi - lo) / 2;
      if header[mid].hash < hash then SearchRange(header, hash, mid + 1, hi)
      else if header[mid].hash > hash then SearchRange(header, hash, lo, mid)
      else Some(mid)
  }

  /** On a sorted header, the search between `lo` and `hi` misses only when no record there has the id. */
  lemma {:induction false} SearchRangeMisses(header: seq<HeaderRecord>, hash: TripleElementId, lo: nat, hi: nat)
    requires lo <= hi <= |header| && HeaderSorted(header)
    ensures SearchRange(header, hash, lo, hi).None? ==> forall i :: lo <= i < hi ==> header[i].hash != hash
    decreases hi - lo
  {
    if lo < hi {
      var mid := lo + (hi - lo) / 2;
      if header[mid].hash < hash {
        SearchRangeMisses(header, hash, mid + 1, hi);
      } else if header[mid].hash > hash {
        SearchRangeMisses(header, hash, lo, mid);
      }
    }
  }

  /** `search_header`: the position of the record whose id is `hash`, if the search finds one. */
  function SearchHeader(d: RdfTripleDecompressor, hash: TripleElementId): (r: Option<nat>)
    ensures r.Some? ==> r.value < |d.header| && d.header[r.value].hash == hash
  {
    SearchRange(d.header, hash, 0, |d.header|)
  }

  /** On a sorted header, `search_header` finds a record exactly when some record has the id. */
  lemma SearchHeaderSpec(d: RdfTripleDecompressor, hash: TripleElementId)
    requires HeaderSorted(d.header)
    ensures SearchHeader(d, hash).None? <==> forall i :: 0 <= i < |d.header| ==> d.header[i].hash != hash
  {
    SearchRangeMisses(d.header, hash, 0, |d.header|);
  }

  /** The data-segment slice of record `i`. */
  function RecordText(d: RdfTripleDecompressor, i: nat): Bytes
    requires InBounds(d) && i < |d.header|
  {
    d.dataSegment[d.header[i].start..d.header[i].end]
  }

  /** `decompress_rdf_triple`: the texts of the ids' records, if all three have one. */
  function DecompressTriple(d: RdfTripleDecompressor, t: CompressedTriple): Option<RawTriple>
    requires InBounds(d)
  {
    var i, j, k := SearchHeader(d, t.s), SearchHeader(d, t.p), SearchHeader(d, t.o);
    if i.Some? && j.Some? && k.Some? then Some(RawTriple(RecordText(d, i.value), RecordText(d, j.value), RecordText(d, k.value)))
    else None
  }

  /**
   * On a sorted header, `decompress_rdf_triple` gives `Some` exactly when all
   * three ids have a record; on a header with one record per id, each
   * component is the data-segment slice of its id's record.
   */
  lemma DecompressTripleSpec(d: RdfTripleDecompressor, t: CompressedTriple)
    requires InBounds(d)
    ensures HeaderSorted(d.header) ==>
      (DecompressTriple(d, t).Some? <==>
        && (exists i :: 0 <= i < |d.header| && d.header[i].hash == t.s)
        && (exists i :: 0 <= i < |d.header| && d.header[i].hash == t.p)
        && (exists i :: 0 <= i < |d.header| && d.header[i].hash == t.o))
    ensures DecompressTriple(d, t).Some? && HeaderStrictlySorted(d.header) ==>
      forall i :: 0 <= i < |d.header| ==>
        && (d.header[i].hash == t.s ==> DecompressTriple(d, t).value.s == RecordText(d, i))
        && (d.header[i].hash == t.p ==> DecompressTriple(d, t).value.p == RecordText(d, i))
        && (d.header[i].hash == t.o ==> DecompressTriple(d, t).value.o == RecordText(d, i))
  {
    if HeaderSorted(d.header) {
      SearchHeaderSpec(d, t.s);
      SearchHeaderSpec(d, t.p);
      SearchHeaderSpec(d, t.o);
    }
    if DecompressTriple(d, t).Some? && HeaderStrictlySorted(d.header) {
      assert forall i, j :: 0 <= i < |d.header| && 0 <= j < |d.header| && d.header[i].hash == d.header[j].hash ==> i == j;
    }
  }

  /** The bytes of one header record: id, start, end, each a machine word. */
  function RecordBytes(rec: HeaderRecord): (r: Bytes)
    ensures |r| == RECORD_SIZE
  {
    Word(rec.hash) + Word(rec.start) + Word(rec.end)
  }

  function HeaderBytes(header: seq<HeaderRecord>): (r: Bytes)
    ensures |r| == |header| * RECORD_SIZE
  {
    if header == [] then [] else RecordBytes(header[0]) + HeaderBytes(header[1..])
  }

  /** The header region of a mapped state file read as records. */
  function ParseRecords(bs: Bytes): (header: seq<HeaderRecord>)
    requires |bs| % RECORD_SIZE == 0
    ensures |header| * RECORD_SIZE == |bs|
    decreases |bs|
  {
    if bs == [] then []
    else
      var hash, start, end := DecodeLe(bs[..8]), DecodeLe(bs[8..16]), DecodeLe(bs[16..24]);
      DecodeBound(bs[..8]);
      DecodeBound(bs[8..16]);
      DecodeBound(bs[16..24]);
      Pow256Word();
      [HeaderRecord(hash, start, end)] + ParseRecords(bs[RECORD_SIZE..])
  }

  /** Records written as bytes read back as the same records. */
  lemma {:induction false} ParseHeaderBytes(header: seq<HeaderRecord>)
    ensures ParseRecords(HeaderBytes(header)) == header
  {
    if header != [] {
      var rec := header[0];
      var bs := HeaderBytes(header);
      assert bs[..8] == Word(rec.hash);
      assert bs[8..16] == Word(rec.start);
      assert bs[16..24] == Word(rec.end);
      WordRoundTrip(rec.hash);
      WordRoundTrip(rec.start);
      WordRoundTrip(rec.end);
      assert bs[RECORD_SIZE..] == HeaderBytes(header[1..]);
      ParseHeaderBytes(header[1..]);
    }
  }

  /**
   * `load_state`: the first word is the header size in bytes; the header
   * occupies bytes `[8, 8 + header_size)` and the data segment is the rest of
   * the file.
   */
  function LoadState(file: Bytes): (r: Result<RdfTripleDecompressor, LoadError>)
    ensures r.Ok? <==> |file| >= WORD_SIZE && WORD_SIZE + DecodeLe(file[..WORD_SIZE]) <= |file|
                       && DecodeLe(file[..WORD_SIZE]) % RECORD_SIZE == 0
    ensures r.Ok? ==>
      var headerSize := DecodeLe(file[..WORD_SIZE]);
      |r.value.header| * RECORD_SIZE == headerSize
      && HeaderBytes(r.value.header) == file[WORD_SIZE..WORD_SIZE + headerSize]
      && r.value.dataSegment == file[WORD_SIZE + headerSize..]
  {
    if |file| < WORD_SIZE then Err(MissingHeaderSize)
    else
      var headerSize := DecodeLe(file[..WORD_SIZE]);
      if |file| - WORD_SIZE < headerSize then Err(TruncatedHeader)
      else if headerSize % RECORD_SIZE != 0 then Err(PartialRecord)
      else
        var headerBytes := file[WORD_SIZE..WORD_SIZE + headerSize];
        var header := ParseRecords(headerBytes);
        RecordsReencode(headerBytes);
        Ok(RdfTripleDecompressor(header, file[WORD_SIZE + headerSize..]))
  }

  /** Reading the header region as records and writing them back gives the same bytes. */
  lemma {:induction false} RecordsReencode(bs: Bytes)
    requires |bs| % RECORD_SIZE == 0
    ensures HeaderBytes(ParseRecords(bs)) == bs
    decreases |bs|
  {
    if bs != [] {
      RecordWords(bs);
      RecordsReencode(bs[RECORD_SIZE..]);
    }
  }

  /** The first record's bytes are the words of the ids read from them. */
  lemma RecordWords(bs: Bytes)
    requires |bs| >= RECORD_SIZE
    ensures bs == Word(DecodeLe(bs[..8])) + Word(DecodeLe(bs[8..16])) + Word(DecodeLe(bs[16..24])) + bs[RECORD_SIZE..]
  {
    var w0, w1, w2 := bs[..8], bs[8..16], bs[16..24];
    WordReencode(w0);
    WordReencode(w1);
    WordReencode(w2);
    assert bs == w0 + w1 + w2 + bs[RECORD_SIZE..];
  }

  /** Eight bytes read as a word and written back are the same eight bytes. */
  lemma {:induction false} WordReencode(w: Bytes)
    requires |w| == WORD_SIZE
    ensures Word(DecodeLe(w)) == w
  {
    EncodeDecode(w);
  }

  lemma {:induction false} EncodeDecode(bs: Bytes)
    ensures EncodeLe(DecodeLe(bs), |bs|) == bs
  {
    if bs != [] {
      var x := DecodeLe(bs);
      assert x % 256 == bs[0] && x / 256 == DecodeLe(bs[1..]);
      EncodeDecode(bs[1..]);
    }
  }

  /** One triple as text: `s p o` followed by `terminator`. */
  function TripleText(t: RawTriple, terminator: Bytes): Bytes
  {
    t.s + [SPACE] + t.p + [SPACE] + t.o + terminator
  }

  /** Several triples, one after the other, each ended by `terminator`. */
  function TriplesText(ts: seq<RawTriple>, terminator: Bytes): Bytes
  {
    if ts == [] then [] else TriplesText(ts[..|ts| - 1], terminator) + TripleText(ts[|ts| - 1], terminator)
  }

  /** The triples of a compressed file resolved one by one; `None` when some id is unknown. */
  function DecompressAll(d: RdfTripleDecompressor, ts: seq<CompressedTriple>): Option<seq<RawTriple>>
    requires InBounds(d)
  {
    if ts == [] then Some([])
    else
      var init, last := DecompressAll(d, ts[..|ts| - 1]), DecompressTriple(d, ts[|ts| - 1]);
      if init.Some? && last.Some? then Some(init.value + [last.value]) else None
  }

  lemma DecompressAllStep(d: RdfTripleDecompressor, ts: seq<CompressedTriple>, i: nat)
    requires InBounds(d) && i < |ts| && DecompressAll(d, ts[..i]).Some? && DecompressTriple(d, ts[i]).Some?
    ensures DecompressAll(d, ts[..i + 1]) == Some(DecompressAll(d, ts[..i]).value + [DecompressTriple(d, ts[i]).value])
  {
    assert ts[..i + 1][..i] == ts[..i];
  }

  lemma TriplesTextSnoc(ts: seq<RawTriple>, t: RawTriple, terminator: Bytes)
    ensures TriplesText(ts + [t], terminator) == TriplesText(ts, terminator) + TripleText(t, terminator)
  {
    assert (ts + [t])[..|ts|] == ts;
  }

  /** The text of the first `i + 1` triples is the text of the first `i` followed by triple `i`'s. */
  lemma TriplesTextPrefix(ts: seq<RawTriple>, i: nat, terminator: Bytes)
    requires i < |ts|
    ensures TriplesText(ts[..i + 1], terminator) == TriplesText(ts[..i], terminator) + TripleText(ts[i], terminator)
  {
    assert ts[..i + 1][..i] == ts[..i];
  }

  /** The text of two runs of triples is the two texts one after the other. */
  lemma {:induction false} TriplesTextAppend(a: seq<RawTriple>, b: seq<RawTriple>, terminator: Bytes)
    ensures TriplesText(a + b, terminator) == TriplesText(a, terminator) + TriplesText(b, terminator)
    decreases |b|
  {
    if b == [] {
      assert a + b == a;
    } else {
      var init, last := b[..|b| - 1], b[|b| - 1];
      SnocSplit(a, b);
      TriplesTextAppend(a, init, terminator);
      TriplesTextSnoc(a + init, last, terminator);
      TriplesTextSnoc(init, last, terminator);
      ConcatAssoc(TriplesText(a, terminator), TriplesText(init, terminator), TripleText(last, terminator));
    }
  }

  /** One more resolved triple extends both the resolution and the text written. */
  lemma AppendStep(d: RdfTripleDecompressor, ts: seq<CompressedTriple>, i: nat, out: Bytes, decoded: seq<RawTriple>, t: RawTriple)
    requires InBounds(d) && i < |ts| && DecompressAll(d, ts[..i]) == Some(decoded) && DecompressTriple(d, ts[i]) == Some(t)
    ensures DecompressAll(d, ts[..i + 1]) == Some(decoded + [t])
    ensures out + TriplesText(decoded, LINE_END) + TripleText(t, LINE_END) == out + TriplesText(decoded + [t], LINE_END)
  {
    DecompressAllStep(d, ts, i);
    TriplesTextSnoc(decoded, t, LINE_END);
  }

  /** One unknown id makes the whole file fail. */
  lemma {:induction false} DecompressAllFails(d: RdfTripleDecompressor, ts: seq<CompressedTriple>, i: nat)
    requires InBounds(d) && i < |ts| && DecompressTriple(d, ts[i]).None?
    ensures DecompressAll(d, ts).None?
  {
    if i < |ts| - 1 {
      DecompressAllFails(d, ts[..|ts| - 1], i);
    }
  }

  /** The file resolves exactly when every triple does, and then into the triples' resolutions in order. */
  lemma {:induction false} DecompressAllSpec(d: RdfTripleDecompressor, ts: seq<CompressedTriple>)
    requires InBounds(d)
    ensures DecompressAll(d, ts).Some? <==> forall i :: 0 <= i < |ts| ==> DecompressTriple(d, ts[i]).Some?
    ensures DecompressAll(d, ts).Some? ==>
      && |DecompressAll(d, ts).value| == |ts|
      && forall i :: 0 <= i < |ts| ==> DecompressAll(d, ts).value[i] == DecompressTriple(d, ts[i]).value
  {
    if ts != [] {
      var init := ts[..|ts| - 1];
      DecompressAllSpec(d, init);
      assert forall i :: 0 <= i < |init| ==> ts[i] == init[i];
    }
  }

  /**
   * `decompress_rdf_triple_file`: one `s p o .` line per stored triple, in
   * stored order, appended to `out`; an unknown id is a fatal fault (`None`).
   */
  method DecompressTripleFile(d: RdfTripleDecompressor, triples: seq<CompressedTriple>, out: Bytes)
    returns (r: Option<Bytes>)
    requires InBounds(d)
    ensures r.None? <==> DecompressAll(d, triples).None?
    ensures r.Some? ==> r.value == out + TriplesText(DecompressAll(d, triples).value, LINE_END)
  {
    var written := out;
    ghost var decoded: seq<RawTriple> := [];
    var i := 0;
    while i < |triples|
      invariant 0 <= i <= |triples|
      invariant DecompressAll(d, triples[..i]) == Some(decoded)
      invariant written == out + TriplesText(decoded, LINE_END)
    {
      var t := DecompressTriple(d, triples[i]);
      if t.None? {
        DecompressAllFails(d, triples, i);
        return None;
      }
      AppendStep(d, triples, i, out, decoded, t.value);
      written := written + TripleText(t.value, LINE_END);
      decoded := decoded + [t.value];
      i := i + 1;
    }
    assert triples[..i] == triples;
    r := Some(written);
  }
}
