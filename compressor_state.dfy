/**
 * The compressor state file (`save_state` and `from_decompressor` in
 * src/rdf/triple_compressor/compressor.rs): its byte layout, the header it
 * announces, and the round trip through the decompressor's `load_state`.
 */
module CompressorState {
  import opened Common
  import opened Words
  import opened OrderedMap
  import opened TripleStore
  import opened Decompressor

  /** The term texts in ascending id order, one after the other. */
  function DataSegment(es: seq<Entry<Bytes>>): Bytes
  {
    if es == [] then [] else DataSegment(es[..|es| - 1]) + es[|es| - 1].value
  }

  /**
   * The header as `save_state` writes it: per entry its id, the running
   * offset before its text and the running offset after it, as machine words
   * (a `usize` offset past 2^64 would wrap, and `Word` keeps the low bytes).
   */
  function HeaderText(es: seq<Entry<Bytes>>): Bytes
  {
    if es == [] then []
    else
      var init := es[..|es| - 1];
      HeaderText(init) + Word(es[|es| - 1].key) + Word(|DataSegment(init)|) + Word(|DataSegment(es)|)
  }

  /** The texts of one more entry. */
  lemma DataSegmentStep(es: seq<Entry<Bytes>>, i: nat)
    requires i < |es|
    ensures DataSegment(es[..i + 1]) == DataSegment(es[..i]) + es[i].value
  {
    assert es[..i + 1][..i] == es[..i];
  }

  /** The header of one more entry: its id, then the offsets before and after its text. */
  lemma HeaderTextStep(es: seq<Entry<Bytes>>, i: nat)
    requires i < |es|
    ensures |DataSegment(es[..i + 1])| == |DataSegment(es[..i])| + |es[i].value|
    ensures HeaderText(es[..i + 1]) == HeaderText(es[..i]) + Word(es[i].key) + Word(|DataSegment(es[..i])|)
                                       + Word(|DataSegment(es[..i])| + |es[i].value|)
  {
    DataSegmentStep(es, i);
    assert es[..i + 1][..i] == es[..i];
  }

  /** The whole state file: header size, header, data segment. */
  function StateFile(es: seq<Entry<Bytes>>): Bytes
  {
    Word(|es| * RECORD_SIZE) + HeaderText(es) + DataSegment(es)
  }

  /** The header records of a saved dictionary: contiguous slices of the data segment, in id order. */
  function Records(es: seq<Entry<Bytes>>): (h: seq<HeaderRecord>)
    requires |DataSegment(es)| < TWO_TO_THE_64
    ensures |h| == |es|
  {
    if es == [] then []
    else
      var init := es[..|es| - 1];
      Records(init) + [HeaderRecord(es[|es| - 1].key, |DataSegment(init)|, |DataSegment(es)|)]
  }

  /** The decompressor that maps a saved dictionary. */
  function Saved(es: seq<Entry<Bytes>>): RdfTripleDecompressor
    requires |DataSegment(es)| < TWO_TO_THE_64
  {
    RdfTripleDecompressor(Records(es), DataSegment(es))
  }

  lemma {:induction false} HeaderBytesAppend(a: seq<HeaderRecord>, b: seq<HeaderRecord>)
    ensures HeaderBytes(a + b) == HeaderBytes(a) + HeaderBytes(b)
  {
    if a != [] {
      assert (a + b)[1..] == a[1..] + b;
      HeaderBytesAppend(a[1..], b);
    } else {
      assert a + b == b;
    }
  }

  /** Without wrap-around, the header written is exactly the records' bytes. */
  lemma {:induction false} HeaderTextIsRecords(es: seq<Entry<Bytes>>)
    requires |DataSegment(es)| < TWO_TO_THE_64
    ensures HeaderText(es) == HeaderBytes(Records(es))
  {
    if es != [] {
      var init := es[..|es| - 1];
      var rec := HeaderRecord(es[|es| - 1].key, |DataSegment(init)|, |DataSegment(es)|);
      HeaderTextIsRecords(init);
      HeaderBytesAppend(Records(init), [rec]);
      assert HeaderBytes([rec]) == RecordBytes(rec);
    }
  }

  /** Record `i` of a saved header: entry `i`'s id and the offsets before and after its text. */
  lemma {:induction false} RecordAt(es: seq<Entry<Bytes>>, i: nat)
    requires |DataSegment(es)| < TWO_TO_THE_64 && i < |es|
    ensures Records(es)[i].hash == es[i].key
    ensures Records(es)[i].start == |DataSegment(es[..i])| && Records(es)[i].end == |DataSegment(es[..i + 1])|
  {
    var init := es[..|es| - 1];
    if i < |init| {
      RecordAt(init, i);
      assert init[..i] == es[..i] && init[..i + 1] == es[..i + 1];
    } else {
      assert es[..i + 1] == es;
    }
  }

  /** The texts of the first `j` entries are a prefix of the data segment. */
  lemma {:induction false} DataSegmentPrefix(es: seq<Entry<Bytes>>, j: nat)
    requires j <= |es|
    ensures |DataSegment(es[..j])| <= |DataSegment(es)|
    ensures DataSegment(es)[..|DataSegment(es[..j])|] == DataSegment(es[..j])
  {
    if j < |es| {
      var init := es[..|es| - 1];
      DataSegmentPrefix(init, j);
      assert init[..j] == es[..j];
    } else {
      assert es[..j] == es;
    }
  }

  /** Record `i` of a saved header slices exactly entry `i`'s text out of the data segment. */
  lemma SliceAt(es: seq<Entry<Bytes>>, i: nat)
    requires |DataSegment(es)| < TWO_TO_THE_64 && i < |es|
    ensures var r := Records(es)[i];
      r.start <= r.end <= |DataSegment(es)| && DataSegment(es)[r.start..r.end] == es[i].value
  {
    RecordAt(es, i);
    DataSegmentPrefix(es, i + 1);
    assert es[..i + 1][..i] == es[..i];
    var ds, before, upto := DataSegment(es), DataSegment(es[..i]), DataSegment(es[..i + 1]);
    assert upto == before + es[i].value;
    assert ds[|before|..|upto|] == upto[|before|..];
  }

  /** Every record of a saved header has its entry's id and slices its entry's text, inside the data segment. */
  lemma SavedRecords(es: seq<Entry<Bytes>>)
    requires |DataSegment(es)| < TWO_TO_THE_64
    ensures InBounds(Saved(es))
    ensures forall i :: 0 <= i < |es| ==> Saved(es).header[i].hash == es[i].key
    ensures forall i :: 0 <= i < |es| ==> RecordText(Saved(es), i) == es[i].value
  {
    var d := Saved(es);
    forall i | 0 <= i < |es|
      ensures d.header[i].start <= d.header[i].end <= |d.dataSegment|
      ensures d.header[i].hash == es[i].key
      ensures d.dataSegment[d.header[i].start..d.header[i].end] == es[i].value
    {
      SliceAt(es, i);
      RecordAt(es, i);
    }
  }

  /**
   * The offsets of a saved header: the first record starts at 0, each record
   * ends its text's length after its start, each starts where the previous
   * one ended, and the last ends at the end of the data segment.
   */
  lemma SavedOffsets(es: seq<Entry<Bytes>>)
    requires |DataSegment(es)| < TWO_TO_THE_64
    ensures var h := Saved(es).header;
      && (es != [] ==> h[0].start == 0 && h[|es| - 1].end == |DataSegment(es)|)
      && (forall i :: 0 <= i < |es| ==> h[i].end == h[i].start + |es[i].value|)
      && (forall i :: 0 < i < |es| ==> h[i].start == h[i - 1].end)
  {
    var h := Saved(es).header;
    forall i | 0 <= i < |es|
      ensures h[i].end == h[i].start + |es[i].value|
    {
      RecordAt(es, i);
      assert es[..i + 1][..i] == es[..i];
    }
    forall i | 0 < i < |es|
      ensures h[i].start == h[i - 1].end
    {
      RecordAt(es, i);
      RecordAt(es, i - 1);
    }
    if es != [] {
      RecordAt(es, 0);
      RecordAt(es, |es| - 1);
      assert es[..|es|] == es;
    }
  }

  /** A dictionary with strictly ascending ids saves a header with strictly ascending ids. */
  lemma SavedSorted(es: seq<Entry<Bytes>>)
    requires StrictlySorted(es) && |DataSegment(es)| < TWO_TO_THE_64
    ensures HeaderStrictlySorted(Saved(es).header) && HeaderSorted(Saved(es).header)
  {
    SavedRecords(es);
  }

  /** A state file splits into the header size, the header text and the data segment. */
  lemma StateFileParts(es: seq<Entry<Bytes>>)
    ensures var file, hs := StateFile(es), |es| * RECORD_SIZE;
      && |file| == WORD_SIZE + hs + |DataSegment(es)|
      && file[..WORD_SIZE] == Word(hs)
      && file[WORD_SIZE..WORD_SIZE + hs] == HeaderText(es)
      && file[WORD_SIZE + hs..] == DataSegment(es)
  {
    HeaderTextLength(es);
  }

  /** Three words per entry. */
  lemma {:induction false} HeaderTextLength(es: seq<Entry<Bytes>>)
    ensures |HeaderText(es)| == |es| * RECORD_SIZE
  {
    if es != [] {
      var init := es[..|es| - 1];
      HeaderTextLength(init);
      assert RECORD_SIZE == 24 && |es| == |init| + 1;
      assert |es| * 24 == |init| * 24 + 24;
    }
  }

  /**
   * What `load_state` maps from a saved file is the saved header and data
   * segment, as long as neither the header size nor an offset wrapped.
   */
  lemma SaveLoad(es: seq<Entry<Bytes>>)
    requires |es| * RECORD_SIZE < TWO_TO_THE_64 && |DataSegment(es)| < TWO_TO_THE_64
    ensures LoadState(StateFile(es)) == Ok(Saved(es))
  {
    var hs := |es| * RECORD_SIZE;
    StateFileParts(es);
    WordRoundTrip(hs);
    WholeRecords(|es|);
    HeaderTextIsRecords(es);
    ParseHeaderBytes(Records(es));
  }

  /** The dictionary rebuilt from the first `n` header records, each inserted under its id. */
  function Rebuild(d: RdfTripleDecompressor, n: nat): (es: seq<Entry<Bytes>>)
    requires InBounds(d) && n <= |d.header|
    ensures StrictlySorted(es)
  {
    if n == 0 then []
    else Insert(Rebuild(d, n - 1), d.header[n - 1].hash, RecordText(d, n - 1))
  }

  /** Rebuilding one more record inserts its text under its id. */
  lemma RebuildStep(d: RdfTripleDecompressor, i: nat)
    requires InBounds(d) && i < |d.header|
    ensures Rebuild(d, i + 1) == Insert(Rebuild(d, i), d.header[i].hash, d.dataSegment[d.header[i].start..d.header[i].end])
  {
  }

  /** Record `i` of a saved header maps entry `i`'s id to entry `i`'s text. */
  lemma SavedEntry(es: seq<Entry<Bytes>>, i: nat)
    requires |DataSegment(es)| < TWO_TO_THE_64 && i < |es| && InBounds(Saved(es))
    ensures Saved(es).header[i].hash == es[i].key && RecordText(Saved(es), i) == es[i].value
  {
    RecordAt(es, i);
    SliceAt(es, i);
  }

  /** Rebuilding from a saved header gives back the saved dictionary, prefix by prefix. */
  lemma {:induction false} RebuildSaved(es: seq<Entry<Bytes>>, n: nat)
    requires StrictlySorted(es) && |DataSegment(es)| < TWO_TO_THE_64 && n <= |es|
    requires InBounds(Saved(es))
    ensures Rebuild(Saved(es), n) == es[..n]
  {
    if n > 0 {
      RebuildSaved(es, n - 1);
      SavedEntry(es, n - 1);
      InsertNext(es, n);
    }
  }

  /**
   * Saving a dictionary, mapping the file back and rebuilding the dictionary
   * from its header gives the dictionary that was saved.
   */
  lemma SaveReload(es: seq<Entry<Bytes>>)
    requires StrictlySorted(es)
    requires |es| * RECORD_SIZE < TWO_TO_THE_64 && |DataSegment(es)| < TWO_TO_THE_64
    ensures LoadState(StateFile(es)).Ok?
    ensures var d := LoadState(StateFile(es)).value; InBounds(d) && Rebuild(d, |d.header|) == es
  {
    SaveLoad(es);
    SavedRecords(es);
    RebuildSaved(es, |es|);
    assert es[..|es|] == es;
  }

  /**
   * After saving and loading, decompressing a triple of known ids gives the
   * texts the dictionary holds under those ids.
   */
  lemma SavedLookup(es: seq<Entry<Bytes>>, t: CompressedTriple)
    requires StrictlySorted(es) && |DataSegment(es)| < TWO_TO_THE_64
    requires t.s in KeySet(es) && t.p in KeySet(es) && t.o in KeySet(es)
    ensures var d := Saved(es);
      InBounds(d)
      && DecompressTriple(d, t) == Some(RawTriple(Get(es, t.s).value, Get(es, t.p).value, Get(es, t.o).value))
  {
    var d := Saved(es);
    SavedRecords(es);
    SavedSorted(es);
    DecompressTripleSpec(d, t);
    InKeySet(es, t.s);
    InKeySet(es, t.p);
    InKeySet(es, t.o);
    var i :| 0 <= i < |es| && es[i].key == t.s;
    var j :| 0 <= j < |es| && es[j].key == t.p;
    var k :| 0 <= k < |es| && es[k].key == t.o;
    GetAt(es, i);
    GetAt(es, j);
    GetAt(es, k);
    assert d.header[i].hash == t.s && d.header[j].hash == t.p && d.header[k].hash == t.o;
  }
}
