/**
 * Query planning and query rendering of src/sparql.rs: the workload specs are
 * expanded into one planned query per query, put in the requested order, and
 * each query's triples are written as a SPARQL 1.1 Update `INSERT DATA` /
 * `DELETE DATA` block (sections 3.1.1 and 3.1.2 of SPARQL 1.1 Update), or as
 * N-Triples lines.
 */
module Sparql {
  import opened Common
  import opened TripleStore
  import opened Decompressor
  import opened Sorting

  datatype OutputOrder =
    | AsSpecified
    | Randomized
    | SortedSizeAsc
    | SortedSizeDesc
    | SortedSizeAscAlternateInsertDelete

  /** Declared in this order, so `InsertData < DeleteData`. */
  datatype QueryType = InsertData | DeleteData

  /** `n_queries` queries of `n_triples_per_query` triples each, all of `query_type`. */
  datatype QuerySpec = QuerySpec(nQueries: nat, nTriplesPerQuery: nat, queryType: QueryType)

  /** `OutputFormat` (src/main.rs): SPARQL update queries or plain N-Triples lines. */
  datatype OutputFormat = Query | NTriples

  /** One entry of the query plan: `(n_triples_per_query, query_type)`. */
  datatype PlannedQuery = PlannedQuery(size: nat, queryType: QueryType)

  /**
   * Why query generation stops: the plan cannot be put in the requested
   * order (`ErrorKind::InvalidInput`), or a triple holds an id the
   * dictionary does not know, which the program treats as a fatal fault
   * ("to use same compressor as used for compression").
   */
  datatype PlanError = InvalidInput | UnknownTriple

  function Repeat<T>(x: T, n: nat): (r: seq<T>)
    ensures |r| == n && forall i :: 0 <= i < n ==> r[i] == x
  {
    if n == 0 then [] else Repeat(x, n - 1) + [x]
  }

  /** `flat_map(repeat((n_triples_per_query, query_type)).take(n_queries))`. */
  function Expand(specs: seq<QuerySpec>): seq<PlannedQuery>
  {
    if specs == [] then []
    else
      var last := specs[|specs| - 1];
      Expand(specs[..|specs| - 1]) + Repeat(PlannedQuery(last.nTriplesPerQuery, last.queryType), last.nQueries)
  }

  /** The number of queries the specs ask for. */
  function QueryCount(specs: seq<QuerySpec>): nat
  {
    if specs == [] then 0 else QueryCount(specs[..|specs| - 1]) + specs[|specs| - 1].nQueries
  }

  /** The plan has one entry per query asked for. */
  lemma {:induction false} ExpandLength(specs: seq<QuerySpec>)
    ensures |Expand(specs)| == QueryCount(specs)
  {
    if specs != [] {
      ExpandLength(specs[..|specs| - 1]);
    }
  }

  /**
   * Spec `k`'s block of the plan: right after the queries of the specs before
   * it come `n_queries` copies of its size and type.
   */
  lemma {:induction false} ExpandBlock(specs: seq<QuerySpec>, k: nat)
    requires k < |specs|
    ensures QueryCount(specs[..k]) + specs[k].nQueries == QueryCount(specs[..k + 1]) <= |Expand(specs)|
    ensures Expand(specs)[QueryCount(specs[..k])..QueryCount(specs[..k + 1])]
      == Repeat(PlannedQuery(specs[k].nTriplesPerQuery, specs[k].queryType), specs[k].nQueries)
  {
    var init := specs[..|specs| - 1];
    assert specs[..k + 1][..k] == specs[..k];
    ExpandLength(init);
    ExpandLength(specs);
    if k == |init| {
      assert specs[..k] == init && specs[..k + 1] == specs;
    } else {
      ExpandBlock(init, k);
      assert init[..k] == specs[..k] && init[..k + 1] == specs[..k + 1];
    }
  }

  /** `sort_by_key(|&(size, _)| size)`. */
  function SizeKey(q: PlannedQuery): int
  {
    q.size
  }

  /** `sort_by_key(|&(size, _)| Reverse(size))`. */
  function DescendingSizeKey(q: PlannedQuery): int
  {
    -(q.size as int)
  }

  /**
   * The derived order of `(size, query_type)`: size first, then insert before
   * delete. The key is injective, so the unstable sort's result is the stable
   * sort's.
   */
  function PlanKey(q: PlannedQuery): int
  {
    2 * q.size + (if q.queryType == InsertData then 0 else 1)
  }

  /** The planned queries of type `t`, in order (one side of the `partition`). */
  function OfType(s: seq<PlannedQuery>, t: QueryType): (r: seq<PlannedQuery>)
    ensures |r| <= |s|
  {
    if s == [] then []
    else OfType(s[..|s| - 1], t) + (if s[|s| - 1].queryType == t then [s[|s| - 1]] else [])
  }

  /** `a.zip(b).flat_map(|(i, d)| [i, d])`: pairs until the shorter side ends. */
  function Interleave<T>(a: seq<T>, b: seq<T>): seq<T>
  {
    if a == [] || b == [] then [] else [a[0], b[0]] + Interleave(a[1..], b[1..])
  }

  /** The order the plan is put in; `shuffled` is what `shuffle` produced for `Randomized`. */
  function Reordered(order: OutputOrder, plan: seq<PlannedQuery>, shuffled: seq<PlannedQuery>)
    : (r: Result<seq<PlannedQuery>, PlanError>)
    ensures r.Err? <==> order == SortedSizeAscAlternateInsertDelete && |plan| % 2 != 0
  {
    match order
    case AsSpecified => Ok(plan)
    case Randomized => Ok(shuffled)
    case SortedSizeAsc => Ok(StableSort(plan, SizeKey))
    case SortedSizeDesc => Ok(StableSort(plan, DescendingSizeKey))
    case SortedSizeAscAlternateInsertDelete =>
      if |plan| % 2 != 0 then Err(InvalidInput) else Ok(Alternated(plan))
  }

  /**
   * Every order but the alternating one is a rearrangement of the plan (given
   * that `shuffle` rearranges it); the alternating order keeps a part of it.
   */
  lemma ReorderedFromPlan(order: OutputOrder, plan: seq<PlannedQuery>, shuffled: seq<PlannedQuery>)
    requires multiset(shuffled) == multiset(plan)
    ensures var r := Reordered(order, plan, shuffled);
      && (r.Ok? ==> multiset(r.value) <= multiset(plan))
      && (r.Ok? && order != SortedSizeAscAlternateInsertDelete ==> multiset(r.value) == multiset(plan))
  {
    match order {
      case SortedSizeAsc => StableSortPermutation(plan, SizeKey);
      case SortedSizeDesc => StableSortPermutation(plan, DescendingSizeKey);
      case SortedSizeAscAlternateInsertDelete => AlternateFromPlan(plan);
      case _ =>
    }
  }

  /** `sort_unstable`, `partition` by type, then `zip` and flatten the pairs. */
  function Alternated(plan: seq<PlannedQuery>): seq<PlannedQuery>
  {
    var sorted := StableSort(plan, PlanKey);
    Interleave(OfType(sorted, InsertData), OfType(sorted, DeleteData))
  }

  /**
   * The reordering in `generate_queries`: the plan is copied into a buffer
   * that is sorted in place, or partitioned and zipped for the alternating
   * order.
   */
  method Reorder(order: OutputOrder, plan: seq<PlannedQuery>, shuffled: seq<PlannedQuery>)
    returns (r: Result<seq<PlannedQuery>, PlanError>)
    ensures r == Reordered(order, plan, shuffled)
  {
    var tmp := new PlannedQuery[|plan|];
    forall i | 0 <= i < |plan| {
      tmp[i] := plan[i];
    }
    assert tmp[..] == plan;
    match order {
      case AsSpecified =>
        r := Ok(tmp[..]);
      case Randomized =>
        r := Ok(shuffled);
      case SortedSizeAsc =>
        SortByKey(tmp, SizeKey);
        r := Ok(tmp[..]);
      case SortedSizeDesc =>
        SortByKey(tmp, DescendingSizeKey);
        r := Ok(tmp[..]);
      case SortedSizeAscAlternateInsertDelete =>
        if tmp.Length % 2 != 0 {
          return Err(InvalidInput);
        }
        SortByKey(tmp, PlanKey);
        var ins, del := OfType(tmp[..], InsertData), OfType(tmp[..], DeleteData);
        r := Ok(Interleave(ins, del));
    }
  }

  /**
   * `SortedSizeAsc` is a stable permutation of the plan: ascending in size,
   * and queries of equal size in their planned order.
   */
  lemma SortedAscSpec(plan: seq<PlannedQuery>, shuffled: seq<PlannedQuery>, size: nat)
    ensures var asc := Reordered(SortedSizeAsc, plan, shuffled).value;
      && multiset(asc) == multiset(plan)
      && (forall i, j :: 0 <= i < j < |asc| ==> asc[i].size <= asc[j].size)
      && WithKey(asc, SizeKey, size) == WithKey(plan, SizeKey, size)
  {
    var asc := StableSort(plan, SizeKey);
    StableSortPermutation(plan, SizeKey);
    StableSortSorted(plan, SizeKey);
    StableSortStable(plan, SizeKey, size);
    forall i, j | 0 <= i < j < |asc|
      ensures asc[i].size <= asc[j].size
    {
      assert SizeKey(asc[i]) <= SizeKey(asc[j]);
    }
  }

  /**
   * `SortedSizeDesc` is a stable permutation of the plan: descending in size,
   * and queries of equal size (equal key `k`, minus the size) in their
   * planned order.
   */
  lemma SortedDescSpec(plan: seq<PlannedQuery>, shuffled: seq<PlannedQuery>, k: int)
    ensures var desc := Reordered(SortedSizeDesc, plan, shuffled).value;
      && multiset(desc) == multiset(plan)
      && (forall i, j :: 0 <= i < j < |desc| ==> desc[i].size >= desc[j].size)
      && WithKey(desc, DescendingSizeKey, k) == WithKey(plan, DescendingSizeKey, k)
  {
    StableSortPermutation(plan, DescendingSizeKey);
    StableSortSorted(plan, DescendingSizeKey);
    DescendingSizes(StableSort(plan, DescendingSizeKey));
    StableSortStable(plan, DescendingSizeKey, k);
  }

  lemma DescendingSizes(s: seq<PlannedQuery>)
    requires SortedBy(s, DescendingSizeKey)
    ensures forall i, j :: 0 <= i < j < |s| ==> s[i].size >= s[j].size
  {
    forall i, j | 0 <= i < j < |s|
      ensures s[i].size >= s[j].size
    {
      assert DescendingSizeKey(s[i]) <= DescendingSizeKey(s[j]);
    }
  }

  /** The side of type `t` holds only queries of type `t`, each taken from the plan. */
  lemma {:induction false} OfTypeFrom(s: seq<PlannedQuery>, t: QueryType)
    ensures forall q :: q in OfType(s, t) ==> q in s && q.queryType == t
  {
    if s != [] {
      OfTypeFrom(s[..|s| - 1], t);
    }
  }

  /** The two sides of the partition together are the whole plan. */
  lemma {:induction false} PartitionSplits(s: seq<PlannedQuery>)
    ensures multiset(OfType(s, InsertData)) + multiset(OfType(s, DeleteData)) == multiset(s)
  {
    if s != [] {
      PartitionSplits(s[..|s| - 1]);
      MultisetSnoc(s);
    }
  }

  /** Every planned query lands on one side or the other. */
  lemma {:induction false} PartitionLength(s: seq<PlannedQuery>)
    ensures |OfType(s, InsertData)| + |OfType(s, DeleteData)| == |s|
  {
    if s != [] {
      PartitionLength(s[..|s| - 1]);
    }
  }

  lemma {:induction false} InsertByKeyOfType(s: seq<PlannedQuery>, x: PlannedQuery, t: QueryType)
    ensures |OfType(InsertByKey(s, x, PlanKey), t)| == |OfType(s, t)| + (if x.queryType == t then 1 else 0)
  {
    if s == [] {
    } else if PlanKey(s[|s| - 1]) <= PlanKey(x) {
      assert (s + [x])[..|s|] == s;
    } else {
      var init, last := s[..|s| - 1], s[|s| - 1];
      InsertByKeyOfType(init, x, t);
      var r := InsertByKey(init, x, PlanKey);
      assert (r + [last])[..|r|] == r;
    }
  }

  /** Sorting the plan keeps the number of queries of each type. */
  lemma {:induction false} SortedOfTypeLength(s: seq<PlannedQuery>, t: QueryType)
    ensures |OfType(StableSort(s, PlanKey), t)| == |OfType(s, t)|
  {
    if s != [] {
      var init, last := s[..|s| - 1], s[|s| - 1];
      SortedOfTypeLength(init, t);
      InsertByKeyOfType(StableSort(init, PlanKey), last, t);
    }
  }

  /** A side of a sorted plan is sorted. */
  lemma {:induction false} OfTypeSorted(s: seq<PlannedQuery>, t: QueryType)
    requires SortedBy(s, PlanKey)
    ensures SortedBy(OfType(s, t), PlanKey)
  {
    if s != [] {
      var init, last := s[..|s| - 1], s[|s| - 1];
      OfTypeSorted(init, t);
      OfTypeFrom(init, t);
      var r := OfType(init, t);
      forall i | 0 <= i < |r|
        ensures PlanKey(r[i]) <= PlanKey(last)
      {
        assert r[i] in init;
      }
    }
  }

  /** The zip takes pairs while both sides last: even places from `a`, odd places from `b`. */
  lemma {:induction false} InterleaveSpec<T>(a: seq<T>, b: seq<T>)
    ensures |Interleave(a, b)| == 2 * Min(|a|, |b|)
    ensures forall k :: 0 <= k < |Interleave(a, b)| ==>
      Interleave(a, b)[k] == if k % 2 == 0 then a[k / 2] else b[k / 2]
  {
    if a != [] && b != [] {
      InterleaveSpec(a[1..], b[1..]);
    }
  }

  /** One pair of `Interleave`: the two heads, then the rest. */
  lemma InterleaveCons<T>(a: seq<T>, b: seq<T>)
    requires a != [] && b != []
    ensures multiset(Interleave(a, b)) == multiset{a[0], b[0]} + multiset(Interleave(a[1..], b[1..]))
    ensures multiset(a) == multiset{a[0]} + multiset(a[1..]) && multiset(b) == multiset{b[0]} + multiset(b[1..])
  {
    assert Interleave(a, b) == [a[0], b[0]] + Interleave(a[1..], b[1..]);
    assert a == [a[0]] + a[1..] && b == [b[0]] + b[1..];
  }

  /** The zip keeps nothing that is on neither side. */
  lemma {:induction false} InterleaveMultiset<T>(a: seq<T>, b: seq<T>)
    ensures multiset(Interleave(a, b)) <= multiset(a) + multiset(b)
  {
    if a != [] && b != [] {
      InterleaveMultiset(a[1..], b[1..]);
      InterleaveCons(a, b);
    }
  }
  /**
   * The alternating order is insert, delete, insert, ...,
   * each side ascending in size; it holds twice as many queries as the
   * smaller side, as `zip` stops there.
   */
  lemma AlternateShape(plan: seq<PlannedQuery>)
    ensures var r := Alternated(plan);
      && |r| == 2 * Min(|OfType(plan, InsertData)|, |OfType(plan, DeleteData)|)
      && (forall k :: 0 <= k < |r| ==> r[k].queryType == if k % 2 == 0 then InsertData else DeleteData)
      && (forall i, j :: 0 <= i < j < |r| && i % 2 == j % 2 ==> r[i].size <= r[j].size)
  {
    var sorted := StableSort(plan, PlanKey);
    var ins, del := OfType(sorted, InsertData), OfType(sorted, DeleteData);
    var r := Interleave(ins, del);
    StableSortSorted(plan, PlanKey);
    SortedOfTypeLength(plan, InsertData);
    SortedOfTypeLength(plan, DeleteData);
    InterleaveSpec(ins, del);
    OfTypeFrom(sorted, InsertData);
    OfTypeFrom(sorted, DeleteData);
    OfTypeSorted(sorted, InsertData);
    OfTypeSorted(sorted, DeleteData);
    forall k | 0 <= k < |r|
      ensures r[k].queryType == if k % 2 == 0 then InsertData else DeleteData
    {
      if k % 2 == 0 {
        assert r[k] in ins;
      } else {
        assert r[k] in del;
      }
    }
    forall i, j | 0 <= i < j < |r| && i % 2 == j % 2
      ensures r[i].size <= r[j].size
    {
      var side := if i % 2 == 0 then ins else del;
      assert r[i] == side[i / 2] && r[j] == side[j / 2] && i / 2 < j / 2;
      assert PlanKey(side[i / 2]) <= PlanKey(side[j / 2]);
      assert side[i / 2] in side && side[j / 2] in side;
    }
  }

  /** The alternating order is made of planned queries only, none more often than planned. */
  lemma AlternateFromPlan(plan: seq<PlannedQuery>)
    ensures multiset(Alternated(plan)) <= multiset(plan)
  {
    var sorted := StableSort(plan, PlanKey);
    StableSortPermutation(plan, PlanKey);
    PartitionSplits(sorted);
    InterleaveMultiset(OfType(sorted, InsertData), OfType(sorted, DeleteData));
  }

  /** The alternating order keeps every planned query exactly when the plan has as many inserts as deletes. */
  lemma AlternateComplete(plan: seq<PlannedQuery>)
    ensures |Alternated(plan)| == |plan| <==> |OfType(plan, InsertData)| == |OfType(plan, DeleteData)|
  {
    AlternateShape(plan);
    PartitionLength(plan);
  }

  // ---------------------------------------------------------------------------
  // Rendering: `write_update_data_queries` and `write_ntriples_file`
  // ---------------------------------------------------------------------------

  /** One query handed to the writers: its type, the number of triples asked for (if any) and its triples. */
  datatype QueryItem = QueryItem(queryType: QueryType, expected: Option<nat>, triples: seq<RawTriple>)

  /** The warning printed when a query comes out with another number of triples than asked for. */
  datatype Warning = SizeWarning(requested: nat, available: nat)

  /** A prepare writer: what its file holds so far, and the format it is written in. */
  datatype PrepareWriter = PrepareWriter(text: Bytes, format: OutputFormat)

  const INSERT_DATA: Bytes := Ascii("INSERT DATA { ")
  const DELETE_DATA: Bytes := Ascii("DELETE DATA { ")
  const BLOCK_END: Bytes := Ascii("}\n")

  /** One update operation: the keyword, each triple as `s p o . `, and the closing brace. */
  function DataBlock(keyword: Bytes, ts: seq<RawTriple>): Bytes
  {
    keyword + TriplesText(ts, TRIPLE_END) + BLOCK_END
  }

  /** What an insert query leaves in the prepare file: a `DELETE DATA` block, or one N-Triples line per triple. */
  function PrepareText(format: OutputFormat, ts: seq<RawTriple>): Bytes
  {
    match format
    case Query => DataBlock(DELETE_DATA, ts)
    case NTriples => TriplesText(ts, LINE_END)
  }

  /** The warning for a query of `cnt` triples, if one was asked for with another size. */
  function SizeCheck(expected: Option<nat>, cnt: nat): (w: Option<Warning>)
    ensures w.Some? <==> expected.Some? && expected.value != cnt
    ensures w.Some? ==> w.value.available == cnt
  {
    if expected.Some? && expected.value != cnt then Some(SizeWarning(expected.value, cnt)) else None
  }

  /** Writing triple `i` after the text of the triples before it. */
  lemma TextStep(written: Bytes, ts: seq<RawTriple>, i: nat, terminator: Bytes)
    requires i < |ts|
    ensures written + TriplesText(ts[..i], terminator) + (ts[i].s + [SPACE] + ts[i].p + [SPACE] + ts[i].o + terminator)
      == written + TriplesText(ts[..i + 1], terminator)
  {
    TriplesTextPrefix(ts, i, terminator);
  }

  /** The terminator of a triple in the prepare file: ` . ` inside a query, ` .\n` on an N-Triples line. */
  function PrepareTerminator(format: OutputFormat): Bytes
  {
    if format == Query then TRIPLE_END else LINE_END
  }

  /** The triple loop of `write_query` with a prepare writer: each triple goes to both writers. */
  method WriteBoth(out: Bytes, prepared: Bytes, format: OutputFormat, query: seq<RawTriple>)
    returns (out': Bytes, prepared': Bytes, cnt: nat)
    ensures out' == out + TriplesText(query, TRIPLE_END)
    ensures prepared' == prepared + TriplesText(query, PrepareTerminator(format))
    ensures cnt == |query|
  {
    out', prepared', cnt := out, prepared, 0;
    while cnt < |query|
      invariant cnt <= |query|
      invariant out' == out + TriplesText(query[..cnt], TRIPLE_END)
      invariant prepared' == prepared + TriplesText(query[..cnt], PrepareTerminator(format))
    {
      var t := query[cnt];
      TextStep(out, query, cnt, TRIPLE_END);
      TextStep(prepared, query, cnt, PrepareTerminator(format));
      out' := out' + (t.s + [SPACE] + t.p + [SPACE] + t.o + TRIPLE_END);
      if format == Query {
        prepared' := prepared' + (t.s + [SPACE] + t.p + [SPACE] + t.o + TRIPLE_END);
      } else {
        prepared' := prepared' + (t.s + [SPACE] + t.p + [SPACE] + t.o + LINE_END);
      }
      cnt := cnt + 1;
    }
    assert query[..cnt] == query;
  }

  /** The triple loop of `write_query` without a prepare writer, and of `write_ntriples`. */
  method WriteOne(out: Bytes, terminator: Bytes, query: seq<RawTriple>) returns (out': Bytes, cnt: nat)
    ensures out' == out + TriplesText(query, terminator)
    ensures cnt == |query|
  {
    out', cnt := out, 0;
    while cnt < |query|
      invariant cnt <= |query|
      invariant out' == out + TriplesText(query[..cnt], terminator)
    {
      var t := query[cnt];
      TextStep(out, query, cnt, terminator);
      out' := out' + (t.s + [SPACE] + t.p + [SPACE] + t.o + terminator);
      cnt := cnt + 1;
    }
    assert query[..cnt] == query;
  }

  /**
   * `write_query`: with a prepare writer the query goes out as `INSERT DATA`
   * and its triples go to the prepare writer too; without one it goes out
   * as `DELETE DATA`. The warning compares the count with the size asked for.
   */
  method WriteQuery(out: Bytes, prepare: Option<PrepareWriter>, expected: Option<nat>, query: seq<RawTriple>)
    returns (out': Bytes, prepare': Option<PrepareWriter>, warning: Option<Warning>)
    ensures prepare.Some? ==>
      && out' == out + DataBlock(INSERT_DATA, query)
      && prepare' == Some(PrepareWriter(prepare.value.text + PrepareText(prepare.value.format, query), prepare.value.format))
    ensures prepare.None? ==> out' == out + DataBlock(DELETE_DATA, query) && prepare' == None
    ensures warning == SizeCheck(expected, |query|)
  {
    var cnt;
    if prepare.Some? {
      var format := prepare.value.format;
      var prepared := prepare.value.text;
      if format == Query {
        prepared := prepared + DELETE_DATA;
      }
      out', prepared, cnt := WriteBoth(out + INSERT_DATA, prepared, format, query);
      out' := out' + BLOCK_END;
      if format == Query {
        prepared := prepared + BLOCK_END;
      }
      ghost var text, body := prepare.value.text, TriplesText(query, PrepareTerminator(format));
      assert format == Query ==> prepared == text + (DELETE_DATA + body + BLOCK_END);
      assert format == NTriples ==> prepared == text + body;
      prepare' := Some(PrepareWriter(prepared, format));
    } else {
      out', cnt := WriteOne(out + DELETE_DATA, TRIPLE_END, query);
      out' := out' + BLOCK_END;
      prepare' := None;
    }
    warning := if expected.Some? && cnt != expected.value then Some(SizeWarning(expected.value, cnt)) else None;
  }

  /** An output file as opened: its old contents when appending, empty otherwise (created or truncated). */
  function Opened(existing: Bytes, append: bool): Bytes
  {
    if append then existing else []
  }

  /**
   * The test-query stream for `items`: one block per query; with a prepare
   * writer an insert query is an `INSERT DATA` block, every other query is a
   * `DELETE DATA` block.
   */
  function QueryStream(items: seq<QueryItem>, prepared: bool): Bytes
  {
    if items == [] then []
    else
      var last := items[|items| - 1];
      QueryStream(items[..|items| - 1], prepared) + DataBlock(Keyword(prepared, last.queryType), last.triples)
  }

  /** The keyword a query is written with: `INSERT DATA` only for an insert query with a prepare writer. */
  function Keyword(prepared: bool, queryType: QueryType): Bytes
  {
    if prepared && queryType == InsertData then INSERT_DATA else DELETE_DATA
  }

  /** The prepare stream for `items`: what each insert query leaves there, in order. */
  function PrepareStream(items: seq<QueryItem>, format: OutputFormat): Bytes
  {
    if items == [] then []
    else
      var last := items[|items| - 1];
      PrepareStream(items[..|items| - 1], format)
        + (if last.queryType == InsertData then PrepareText(format, last.triples) else [])
  }

  /** The N-Triples stream for `items`: every triple of every query as one line. */
  function NTriplesStream(items: seq<QueryItem>): Bytes
  {
    if items == [] then [] else NTriplesStream(items[..|items| - 1]) + TriplesText(items[|items| - 1].triples, LINE_END)
  }

  /** The size warnings printed for `items`, in order. */
  function Warnings(items: seq<QueryItem>): seq<Warning>
  {
    if items == [] then []
    else
      var last := items[|items| - 1];
      var w := SizeCheck(last.expected, |last.triples|);
      Warnings(items[..|items| - 1]) + (if w.Some? then [w.value] else [])
  }

  /** Writing query `i` extends the test-query stream of the queries before it. */
  lemma QueryStreamStep(out: Bytes, out': Bytes, base: Bytes, items: seq<QueryItem>, i: nat, prepared: bool)
    requires i < |items| && out == base + QueryStream(items[..i], prepared)
    requires out' == out + DataBlock(Keyword(prepared, items[i].queryType), items[i].triples)
    ensures out' == base + QueryStream(items[..i + 1], prepared)
  {
    assert items[..i + 1][..i] == items[..i];
    var block := DataBlock(Keyword(prepared, items[i].queryType), items[i].triples);
    assert QueryStream(items[..i + 1], prepared) == QueryStream(items[..i], prepared) + block;
    ConcatAssoc(base, QueryStream(items[..i], prepared), block);
  }

  /** Writing query `i` extends the prepare stream of the queries before it. */
  lemma PrepareStreamStep(text: Bytes, text': Bytes, base: Bytes, items: seq<QueryItem>, i: nat, format: OutputFormat)
    requires i < |items| && text == base + PrepareStream(items[..i], format)
    requires text' == text + (if items[i].queryType == InsertData then PrepareText(format, items[i].triples) else [])
    ensures text' == base + PrepareStream(items[..i + 1], format)
  {
    assert items[..i + 1][..i] == items[..i];
  }

  /** Writing query `i` as N-Triples lines extends the stream of the queries before it. */
  lemma NTriplesStreamStep(out: Bytes, out': Bytes, base: Bytes, items: seq<QueryItem>, i: nat)
    requires i < |items| && out == base + NTriplesStream(items[..i])
    requires out' == out + TriplesText(items[i].triples, LINE_END)
    ensures out' == base + NTriplesStream(items[..i + 1])
  {
    assert items[..i + 1][..i] == items[..i];
  }

  /** The warning of query `i`, if any, follows the warnings of the queries before it. */
  lemma WarningsStep(warnings: seq<Warning>, items: seq<QueryItem>, i: nat, warning: Option<Warning>)
    requires i < |items| && warnings == Warnings(items[..i])
    requires warning == SizeCheck(items[i].expected, |items[i].triples|)
    ensures (if warning.Some? then warnings + [warning.value] else warnings) == Warnings(items[..i + 1])
  {
    assert items[..i + 1][..i] == items[..i];
  }

  /**
   * One pass of the query loop of `write_update_data_queries`: a delete
   * query is written without the prepare writer, an insert query with it.
   */
  method WriteItem(out: Bytes, writer: Option<PrepareWriter>, item: QueryItem)
    returns (out': Bytes, writer': Option<PrepareWriter>, warning: Option<Warning>)
    ensures out' == out + DataBlock(Keyword(writer.Some?, item.queryType), item.triples)
    ensures writer.None? ==> writer' == None
    ensures writer.Some? ==> writer' == Some(PrepareWriter(
      writer.value.text + (if item.queryType == InsertData then PrepareText(writer.value.format, item.triples) else []),
      writer.value.format))
    ensures warning == SizeCheck(item.expected, |item.triples|)
  {
    match item.queryType {
      case DeleteData =>
        var none;
        out', none, warning := WriteQuery(out, None, item.expected, item.triples);
        writer' := writer;
        assert writer.Some? ==> writer.value.text + [] == writer.value.text;
      case InsertData =>
        out', writer', warning := WriteQuery(out, writer, item.expected, item.triples);
    }
  }

  /**
   * What `write_update_data_queries` has produced after the first `i`
   * queries: the two streams of those queries after the files' opening
   * contents, and their warnings.
   */
  ghost predicate QueriesWritten(existing: Bytes, prepareFile: Option<PrepareWriter>, append: bool, items: seq<QueryItem>,
                                 i: nat, out: Bytes, writer: Option<PrepareWriter>, warnings: seq<Warning>)
  {
    && i <= |items|
    && out == Opened(existing, append) + QueryStream(items[..i], prepareFile.Some?)
    && (prepareFile.None? ==> writer.None?)
    && (prepareFile.Some? ==>
          var format := prepareFile.value.format;
          writer == Some(PrepareWriter(Opened(prepareFile.value.text, append) + PrepareStream(items[..i], format), format)))
    && warnings == Warnings(items[..i])
  }

  /** One pass of the query loop: query `i` is written and its warning recorded. */
  method WriteNextQuery(ghost existing: Bytes, ghost prepareFile: Option<PrepareWriter>, ghost append: bool,
                        items: seq<QueryItem>, i: nat, out: Bytes, writer: Option<PrepareWriter>, warnings: seq<Warning>)
    returns (out': Bytes, writer': Option<PrepareWriter>, warnings': seq<Warning>)
    requires i < |items| && QueriesWritten(existing, prepareFile, append, items, i, out, writer, warnings)
    ensures QueriesWritten(existing, prepareFile, append, items, i + 1, out', writer', warnings')
  {
    var warning;
    out', writer', warning := WriteItem(out, writer, items[i]);
    QueryStreamStep(out, out', Opened(existing, append), items, i, prepareFile.Some?);
    if prepareFile.Some? {
      PrepareStreamStep(writer.value.text, writer'.value.text, Opened(prepareFile.value.text, append), items, i,
                        prepareFile.value.format);
    }
    WarningsStep(warnings, items, i, warning);
    warnings' := warnings;
    if warning.Some? {
      warnings' := warnings + [warning.value];
    }
  }

  /**
   * `write_update_data_queries`: the test-query file, and the prepare file
   * when there is one, are opened (appending or truncating); each query is
   * written with the prepare writer only when it is an insert query.
   */
  method WriteUpdateDataQueries(existing: Bytes, prepareFile: Option<PrepareWriter>, append: bool, items: seq<QueryItem>)
    returns (out: Bytes, prepared: Option<Bytes>, warnings: seq<Warning>)
    ensures out == Opened(existing, append) + QueryStream(items, prepareFile.Some?)
    ensures prepareFile.None? ==> prepared.None?
    ensures prepareFile.Some? ==>
      prepared == Some(Opened(prepareFile.value.text, append) + PrepareStream(items, prepareFile.value.format))
    ensures warnings == Warnings(items)
  {
    out := Opened(existing, append);
    var writer: Option<PrepareWriter> := None;
    if prepareFile.Some? {
      writer := Some(PrepareWriter(Opened(prepareFile.value.text, append), prepareFile.value.format));
    }
    warnings := [];
    var i := 0;
    assert items[..0] == [] && out + [] == out;
    assert prepareFile.Some? ==> writer.value.text + [] == writer.value.text;
    while i < |items|
      invariant QueriesWritten(existing, prepareFile, append, items, i, out, writer, warnings)
    {
      out, writer, warnings := WriteNextQuery(existing, prepareFile, append, items, i, out, writer, warnings);
      i := i + 1;
    }
    assert items[..i] == items;
    prepared := if writer.Some? then Some(writer.value.text) else None;
  }

  /** `write_ntriples`: one query's triples as N-Triples lines, and the warning for its size. */
  method WriteNTriples(out: Bytes, expected: Option<nat>, query: seq<RawTriple>) returns (out': Bytes, warning: Option<Warning>)
    ensures out' == out + TriplesText(query, LINE_END)
    ensures warning == SizeCheck(expected, |query|)
  {
    var cnt;
    out', cnt := WriteOne(out, LINE_END, query);
    warning := if expected.Some? && cnt != expected.value then Some(SizeWarning(expected.value, cnt)) else None;
  }

  /** What `write_ntriples_file` has produced after the first `i` queries. */
  ghost predicate LinesWritten(existing: Bytes, append: bool, items: seq<QueryItem>, i: nat, out: Bytes, warnings: seq<Warning>)
  {
    && i <= |items|
    && out == Opened(existing, append) + NTriplesStream(items[..i])
    && warnings == Warnings(items[..i])
  }

  /** One pass of the N-Triples loop: query `i`'s lines are written and its warning recorded. */
  method WriteNextLines(ghost existing: Bytes, ghost append: bool, items: seq<QueryItem>, i: nat, out: Bytes, warnings: seq<Warning>)
    returns (out': Bytes, warnings': seq<Warning>)
    requires i < |items| && LinesWritten(existing, append, items, i, out, warnings)
    ensures LinesWritten(existing, append, items, i + 1, out', warnings')
  {
    var warning;
    out', warning := WriteNTriples(out, items[i].expected, items[i].triples);
    NTriplesStreamStep(out, out', Opened(existing, append), items, i);
    WarningsStep(warnings, items, i, warning);
    warnings' := warnings;
    if warning.Some? {
      warnings' := warnings + [warning.value];
    }
  }

  /** `write_ntriples_file`: every query's triples as N-Triples lines, whatever its type. */
  method WriteNTriplesFile(existing: Bytes, append: bool, items: seq<QueryItem>)
    returns (out: Bytes, warnings: seq<Warning>)
    ensures out == Opened(existing, append) + NTriplesStream(items)
    ensures warnings == Warnings(items)
  {
    out := Opened(existing, append);
    warnings := [];
    var i := 0;
    assert items[..0] == [] && out + [] == out;
    while i < |items|
      invariant LinesWritten(existing, append, items, i, out, warnings)
    {
      out, warnings := WriteNextLines(existing, append, items, i, out, warnings);
      i := i + 1;
    }
    assert items[..i] == items;
  }

  /** The triples of all queries, query after query. */
  function AllTriples(items: seq<QueryItem>): seq<RawTriple>
  {
    if items == [] then [] else AllTriples(items[..|items| - 1]) + items[|items| - 1].triples
  }

  /** The insert queries among `items`, in order. */
  function Inserts(items: seq<QueryItem>): (r: seq<QueryItem>)
    ensures |r| <= |items|
  {
    if items == [] then []
    else Inserts(items[..|items| - 1]) + (if items[|items| - 1].queryType == InsertData then [items[|items| - 1]] else [])
  }

  /**
   * Without a prepare writer the query type plays no part: queries with the
   * same triples give the same `DELETE DATA` stream, and the same N-Triples
   * stream.
   */
  lemma {:induction false} NoPrepareIgnoresType(items: seq<QueryItem>, items': seq<QueryItem>)
    requires |items| == |items'| && forall i :: 0 <= i < |items| ==> items[i].triples == items'[i].triples
    ensures QueryStream(items, false) == QueryStream(items', false)
    ensures NTriplesStream(items) == NTriplesStream(items')
  {
    if items != [] {
      NoPrepareIgnoresType(items[..|items| - 1], items'[..|items'| - 1]);
    }
  }

  /** The N-Triples stream is one `s p o .` line per triple, in query order. */
  lemma {:induction false} NTriplesStreamLines(items: seq<QueryItem>)
    ensures NTriplesStream(items) == TriplesText(AllTriples(items), LINE_END)
  {
    if items != [] {
      var init := items[..|items| - 1];
      NTriplesStreamLines(init);
      TriplesTextAppend(AllTriples(init), items[|items| - 1].triples, LINE_END);
    }
  }

  /**
   * The prepare stream mirrors the insert queries: in `Query` format it is
   * the `DELETE DATA` block of each insert query, in `NTriples` format the
   * lines of each insert query's triples; delete queries leave nothing.
   */
  lemma {:induction false} PrepareMirrorsInserts(items: seq<QueryItem>)
    ensures PrepareStream(items, Query) == QueryStream(Inserts(items), false)
    ensures PrepareStream(items, NTriples) == NTriplesStream(Inserts(items))
  {
    if items != [] {
      var init, last := items[..|items| - 1], items[|items| - 1];
      PrepareMirrorsInserts(init);
      if last.queryType == InsertData {
        var ins := Inserts(init) + [last];
        assert Inserts(items) == ins;
        assert ins[..|ins| - 1] == Inserts(init);
        assert QueryStream(ins, false) == QueryStream(Inserts(init), false) + DataBlock(DELETE_DATA, last.triples);
        assert NTriplesStream(ins) == NTriplesStream(Inserts(init)) + TriplesText(last.triples, LINE_END);
      } else {
        assert Inserts(items) == Inserts(init) + [];
        assert Inserts(init) + [] == Inserts(init);
      }
    }
  }

  /** A warning is printed exactly for the queries whose size was asked for and not met. */
  lemma {:induction false} WarningsSpec(items: seq<QueryItem>)
    ensures |Warnings(items)| <= |items|
    ensures Warnings(items) == [] <==>
      forall i :: 0 <= i < |items| && items[i].expected.Some? ==> items[i].expected.value == |items[i].triples|
  {
    if items != [] {
      var init := items[..|items| - 1];
      WarningsSpec(init);
      assert forall i :: 0 <= i < |init| ==> init[i] == items[i];
    }
  }

  /** The compressed triples of one query, before they are resolved to text. */
  datatype Batch = Batch(queryType: QueryType, expected: Option<nat>, triples: seq<CompressedTriple>)

  /** Every batch resolved through the dictionary; `None` as soon as one triple of one batch has an unknown id. */
  function Resolved(d: RdfTripleDecompressor, batches: seq<Batch>): (r: Option<seq<QueryItem>>)
    requires InBounds(d)
  {
    if batches == [] then Some([])
    else
      var last := batches[|batches| - 1];
      var init, triples := Resolved(d, batches[..|batches| - 1]), DecompressAll(d, last.triples);
      if init.Some? && triples.Some? then Some(init.value + [QueryItem(last.queryType, last.expected, triples.value)])
      else None
  }

  /** The batches resolve exactly when every one of them does. */
  lemma {:induction false} ResolvedSome(d: RdfTripleDecompressor, batches: seq<Batch>)
    requires InBounds(d)
    ensures Resolved(d, batches).Some? <==> forall i :: 0 <= i < |batches| ==> DecompressAll(d, batches[i].triples).Some?
  {
    if batches != [] {
      var init := batches[..|batches| - 1];
      ResolvedSome(d, init);
      assert forall i :: 0 <= i < |init| ==> batches[i] == init[i];
    }
  }

  /** Resolved query `i` keeps batch `i`'s type and expected size and holds its triples' texts. */
  lemma {:induction false} ResolvedItems(d: RdfTripleDecompressor, batches: seq<Batch>)
    requires InBounds(d) && Resolved(d, batches).Some?
    ensures var items := Resolved(d, batches).value;
      && |items| == |batches|
      && forall i :: 0 <= i < |batches| ==>
           && DecompressAll(d, batches[i].triples).Some?
           && items[i] == QueryItem(batches[i].queryType, batches[i].expected, DecompressAll(d, batches[i].triples).value)
  {
    if batches != [] {
      var init := batches[..|batches| - 1];
      ResolvedItems(d, init);
      assert forall i :: 0 <= i < |init| ==> batches[i] == init[i];
    }
  }

  /**
   * The batches resolve exactly when every one of them does, and then query
   * `i` keeps batch `i`'s type and expected size and holds its triples' texts.
   */
  lemma ResolvedSpec(d: RdfTripleDecompressor, batches: seq<Batch>)
    requires InBounds(d)
    ensures Resolved(d, batches).Some? <==> forall i :: 0 <= i < |batches| ==> DecompressAll(d, batches[i].triples).Some?
    ensures Resolved(d, batches).Some? ==>
      var items := Resolved(d, batches).value;
      && |items| == |batches|
      && forall i :: 0 <= i < |batches| ==>
           items[i] == QueryItem(batches[i].queryType, batches[i].expected, DecompressAll(d, batches[i].triples).value)
  {
    ResolvedSome(d, batches);
    if Resolved(d, batches).Some? {
      ResolvedItems(d, batches);
    }
  }

  /**
   * The filter of `generate_linear_no_size_hint`: without an exclude dataset
   * every triple is kept, otherwise those the dataset does not contain.
   */
  function ExcludeFilter(ts: seq<CompressedTriple>, exclude: Option<seq<CompressedTriple>>): (r: seq<CompressedTriple>)
    ensures |r| <= |ts|
  {
    if ts == [] then []
    else
      var last := ts[|ts| - 1];
      ExcludeFilter(ts[..|ts| - 1], exclude) + (if exclude.Some? && Contains(exclude.value, last) then [] else [last])
  }

  /**
   * The filter keeps everything without an exclude dataset; with a sorted
   * one, exactly the triples it does not hold.
   */
  lemma {:induction false} ExcludeFilterSpec(ts: seq<CompressedTriple>, exclude: Option<seq<CompressedTriple>>)
    ensures exclude.None? ==> ExcludeFilter(ts, exclude) == ts
    ensures exclude.Some? && Sorted(exclude.value) ==>
      forall t :: t in ExcludeFilter(ts, exclude) <==> t in ts && t !in exclude.value
  {
    if ts != [] {
      var init := ts[..|ts| - 1];
      ExcludeFilterSpec(init, exclude);
      assert ts == init + [ts[|ts| - 1]];
    }
  }

  /** The datasets to replicate as batches: each keeps its type, asks for no size, and loses the excluded triples. */
  function LinearBatches(datasets: seq<(QueryType, seq<CompressedTriple>)>, exclude: Option<seq<CompressedTriple>>)
    : (r: seq<Batch>)
    ensures |r| == |datasets|
    ensures forall i :: 0 <= i < |r| ==> r[i].queryType == datasets[i].0 && r[i].expected.None?
  {
    seq(|datasets|, i requires 0 <= i < |datasets| => Batch(datasets[i].0, None, ExcludeFilter(datasets[i].1, exclude)))
  }

  /**
   * `generate_linear_no_size_hint`: every dataset becomes one query, written
   * as `DELETE DATA` blocks (no prepare file) or as N-Triples lines.
   */
  method GenerateLinear(existing: Bytes, d: RdfTripleDecompressor, exclude: Option<seq<CompressedTriple>>,
                        datasets: seq<(QueryType, seq<CompressedTriple>)>, append: bool, format: OutputFormat)
    returns (r: Result<Bytes, PlanError>)
    requires InBounds(d)
    ensures var items := Resolved(d, LinearBatches(datasets, exclude));
      && (items.None? ==> r == Err(UnknownTriple))
      && (items.Some? && format == Query ==> r == Ok(Opened(existing, append) + QueryStream(items.value, false)))
      && (items.Some? && format == NTriples ==> r == Ok(Opened(existing, append) + NTriplesStream(items.value)))
  {
    var items := Resolved(d, LinearBatches(datasets, exclude));
    if items.None? {
      return Err(UnknownTriple);
    }
    var out;
    match format {
      case Query =>
        var prepared, warnings;
        out, prepared, warnings := WriteUpdateDataQueries(existing, None, append, items.value);
      case NTriples =>
        var warnings;
        out, warnings := WriteNTriplesFile(existing, append, items.value);
    }
    r := Ok(out);
  }

  /** The batches of `generate_queries`: query `i` of the ordered plan asks `factory` for its size. */
  function PlannedBatches(queries: seq<PlannedQuery>, factory: (nat, nat) -> seq<CompressedTriple>): (r: seq<Batch>)
    ensures |r| == |queries|
    ensures forall i :: 0 <= i < |r| ==>
      r[i] == Batch(queries[i].queryType, Some(queries[i].size), factory(i, queries[i].size))
  {
    seq(|queries|, i requires 0 <= i < |queries| => Batch(queries[i].queryType, Some(queries[i].size), factory(i, queries[i].size)))
  }

  /** The query file, the prepare file and the warnings printed by one run of `generate_queries`. */
  datatype Generated = Generated(queries: Bytes, prepare: Bytes, warnings: seq<Warning>)

  /**
   * `generate_queries`: the specs are expanded and ordered, each planned
   * query gets a batch from the triple generator (`factory(i, size)` is what
   * the generator hands out for the `i`-th query), and the queries are written
   * with a prepare file. A rejected order writes nothing.
   */
  method GenerateQueries(existingQuery: Bytes, existingPrepare: Bytes, format: OutputFormat, specs: seq<QuerySpec>,
                         d: RdfTripleDecompressor, factory: (nat, nat) -> seq<CompressedTriple>,
                         order: OutputOrder, shuffled: seq<PlannedQuery>, append: bool)
    returns (r: Result<Generated, PlanError>)
    requires InBounds(d)
    ensures var planned := Reordered(order, Expand(specs), shuffled);
      && (planned.Err? ==> r == Err(InvalidInput))
      && (planned.Ok? ==>
            var items := Resolved(d, PlannedBatches(planned.value, factory));
            && (items.None? ==> r == Err(UnknownTriple))
            && (items.Some? ==> r == Ok(Generated(Opened(existingQuery, append) + QueryStream(items.value, true),
                                                  Opened(existingPrepare, append) + PrepareStream(items.value, format),
                                                  Warnings(items.value)))))
  {
    var planned := Reorder(order, Expand(specs), shuffled);
    if planned.Err? {
      return Err(planned.error);
    }
    var items := Resolved(d, PlannedBatches(planned.value, factory));
    if items.None? {
      return Err(UnknownTriple);
    }
    var out, prepared, warnings := WriteUpdateDataQueries(existingQuery, Some(PrepareWriter(existingPrepare, format)), append, items.value);
    r := Ok(Generated(out, prepared.value, warnings));
  }

  /**
   * With every batch resolved, no size warning is printed exactly when the
   * triple generator handed every query as many triples as its size.
   */
  lemma FullBatchesSpec(d: RdfTripleDecompressor, queries: seq<PlannedQuery>, factory: (nat, nat) -> seq<CompressedTriple>)
    requires InBounds(d) && Resolved(d, PlannedBatches(queries, factory)).Some?
    ensures Warnings(Resolved(d, PlannedBatches(queries, factory)).value) == [] <==>
      forall i :: 0 <= i < |queries| ==> |factory(i, queries[i].size)| == queries[i].size
  {
    var batches := PlannedBatches(queries, factory);
    var items := Resolved(d, batches).value;
    ResolvedSpec(d, batches);
    WarningsSpec(items);
    forall i | 0 <= i < |queries|
      ensures |items[i].triples| == |factory(i, queries[i].size)| && items[i].expected == Some(queries[i].size)
    {
      DecompressAllSpec(d, batches[i].triples);
    }
  }

  /**
   * Replicated as N-Triples, the output is one line per kept triple of every
   * dataset, dataset after dataset, each resolved through the dictionary.
   */
  lemma LinearLines(d: RdfTripleDecompressor, datasets: seq<(QueryType, seq<CompressedTriple>)>, exclude: Option<seq<CompressedTriple>>)
    requires InBounds(d) && Resolved(d, LinearBatches(datasets, exclude)).Some?
    ensures var items := Resolved(d, LinearBatches(datasets, exclude)).value;
      && NTriplesStream(items) == TriplesText(AllTriples(items), LINE_END)
      && |items| == |datasets|
      && forall i :: 0 <= i < |items| ==> Some(items[i].triples) == DecompressAll(d, ExcludeFilter(datasets[i].1, exclude))
  {
    var batches := LinearBatches(datasets, exclude);
    ResolvedSpec(d, batches);
    NTriplesStreamLines(Resolved(d, batches).value);
  }
}
