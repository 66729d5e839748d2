/**
 * The command-line pieces of src/main.rs that shape a run: the query spec
 * syntax `<i|d><count>x<size>`, the absolute size of a spec, the query type
 * of a replicated dataset file, and the pool size of the distinct triple
 * generator.
 */
module Cli {
  import opened Common
  import opened Sparql
  import opened TripleGenerator

  /** `QuerySizeOpt`: a size in triples, or a share of the main dataset (kept as the text before the `%`). */
  datatype QuerySize = Percentage(text: string) | Absolute(n: nat)

  /** `QuerySpecOpt`: a query spec as given on the command line. */
  datatype QuerySpecOpt = QuerySpecOpt(nQueries: nat, nTriplesPerQuery: QuerySize, queryType: QueryType)

  /**
   * Why a query spec is rejected. `SlicePanics` is the slice `s[0..1]` of an
   * empty spec, or of one whose first character takes more than one byte: it
   * panics rather than returning an error.
   */
  datatype SpecError =
    | SlicePanics
    | NoQueryType
    | NoDelimiter
    | QueryCountNotInteger
    | TripleCountNotInteger

  predicate IsDigit(c: char)
  {
    '0' <= c <= '9'
  }

  predicate AllDigits(s: string)
  {
    forall i :: 0 <= i < |s| ==> IsDigit(s[i])
  }

  /** The number a run of decimal digits denotes. */
  function DecimalValue(s: string): nat
    requires AllDigits(s)
  {
    if s == [] then 0 else 10 * DecimalValue(s[..|s| - 1]) + (s[|s| - 1] as int - '0' as int)
  }

  /**
   * `usize::from_str` on a 64-bit target: an optional `+`, then at least one
   * decimal digit and nothing else, for a value below 2^64.
   */
  function ParseUsize(s: string): (r: Option<nat>)
    ensures r.Some? ==> r.value < TWO_TO_THE_64
  {
    var digits := if |s| > 0 && s[0] == '+' then s[1..] else s;
    if digits == [] || !AllDigits(digits) then None
    else if DecimalValue(digits) >= TWO_TO_THE_64 then None
    else Some(DecimalValue(digits))
  }

  /** The shortest decimal text of `n`, as `usize`'s `Display` writes it. */
  function Decimal(n: nat): (r: string)
    ensures |r| > 0 && AllDigits(r)
  {
    var digit := ('0' as int + n % 10) as char;
    if n < 10 then [digit] else Decimal(n / 10) + [digit]
  }

  lemma {:induction false} DecimalValueOf(n: nat)
    ensures DecimalValue(Decimal(n)) == n
  {
    var r := Decimal(n);
    if n >= 10 {
      DecimalValueOf(n / 10);
      assert r[..|r| - 1] == Decimal(n / 10);
    }
  }

  /** A decimal text parses back to its number exactly when the number fits a `usize`. */
  lemma ParseDecimal(n: nat)
    ensures ParseUsize(Decimal(n)) == if n < TWO_TO_THE_64 then Some(n) else None
    ensures ParseUsize(['+'] + Decimal(n)) == ParseUsize(Decimal(n))
  {
    DecimalValueOf(n);
    assert (['+'] + Decimal(n))[1..] == Decimal(n);
  }

  /** The position of the first `c` in `s` (`split_once` splits there). */
  function FindFirst(s: string, c: char): (r: Option<nat>)
    ensures r.None? <==> c !in s
    ensures r.Some? ==> r.value < |s| && s[r.value] == c && c !in s[..r.value]
  {
    if s == [] then None
    else if s[0] == c then Some(0)
    else
      var rest := FindFirst(s[1..], c);
      assert forall x :: x in s[1..] ==> x in s;
      if rest.None? then None
      else
        assert s[..rest.value + 1] == [s[0]] + s[1..][..rest.value];
        Some(rest.value + 1)
  }

  /** `trim_end_matches(c)`: `s` without its trailing run of `c`. */
  function TrimEnd(s: string, c: char): (r: string)
    ensures |r| <= |s| && r == s[..|r|]
    ensures r == [] || r[|r| - 1] != c
    ensures forall i :: |r| <= i < |s| ==> s[i] == c
  {
    if s == [] || s[|s| - 1] != c then s else TrimEnd(s[..|s| - 1], c)
  }

  /** `QuerySpecOpt::from_str`. */
  function FromStr(s: string): (r: Result<QuerySpecOpt, SpecError>)
  {
    if s == [] || s[0] as int >= 0x80 then Err(SlicePanics)
    else if s[0] != 'i' && s[0] != 'd' then Err(NoQueryType)
    else
      var queryType := if s[0] == 'i' then InsertData else DeleteData;
      var rest := s[1..];
      var x := FindFirst(rest, 'x');
      if x.None? then Err(NoDelimiter)
      else
        var count, size := rest[..x.value], rest[x.value + 1..];
        var n := ParseUsize(count);
        if n.None? then Err(QueryCountNotInteger)
        else if size != [] && size[|size| - 1] == '%' then
          Ok(QuerySpecOpt(n.value, Percentage(TrimEnd(size, '%')), queryType))
        else
          var m := ParseUsize(size);
          if m.None? then Err(TripleCountNotInteger)
          else Ok(QuerySpecOpt(n.value, Absolute(m.value), queryType))
  }

  /**
   * The spec rejections: a missing or multi-byte first character, a first
   * character other than `i` or `d`, no `x` after it, and a count before the
   * `x` that is not a `usize`; and an accepted spec's type is its first
   * character's.
   */
  lemma FromStrErrors(s: string)
    ensures FromStr(s) == Err(SlicePanics) <==> s == [] || s[0] as int >= 0x80
    ensures FromStr(s) == Err(NoQueryType) <==> s != [] && s[0] as int < 0x80 && s[0] != 'i' && s[0] != 'd'
    ensures FromStr(s) == Err(NoDelimiter) <==> s != [] && (s[0] == 'i' || s[0] == 'd') && 'x' !in s[1..]
    ensures FromStr(s).Ok? ==> (s[0] == 'i' <==> FromStr(s).value.queryType == InsertData)
    ensures FromStr(s).Ok? ==> (s[0] == 'd' <==> FromStr(s).value.queryType == DeleteData)
  {
  }

  /** The count before the first `x` is rejected exactly when it is not a `usize`. */
  lemma FromStrCount(t: char, count: string, size: string)
    requires (t == 'i' || t == 'd') && 'x' !in count
    ensures FromStr([t] + count + ['x'] + size) == Err(QueryCountNotInteger) <==> ParseUsize(count).None?
  {
    var s := [t] + count + ['x'] + size;
    assert s[1..] == count + ['x'] + size;
    assert s[1..][|count|] == 'x';
    assert s[1..][..|count|] == count;
  }

  /** A spec whose size has no trailing `%` is `Absolute`, or rejected when the size is not a `usize`. */
  lemma FromStrAbsolute(t: char, count: string, size: string)
    requires (t == 'i' || t == 'd') && 'x' !in count && ParseUsize(count).Some?
    requires size == [] || size[|size| - 1] != '%'
    ensures var r := FromStr([t] + count + ['x'] + size);
      && (ParseUsize(size).None? <==> r == Err(TripleCountNotInteger))
      && (ParseUsize(size).Some? ==>
            r == Ok(QuerySpecOpt(ParseUsize(count).value, Absolute(ParseUsize(size).value),
                                 if t == 'i' then InsertData else DeleteData)))
  {
    var s := [t] + count + ['x'] + size;
    assert s[1..] == count + ['x'] + size;
    var x := FindFirst(s[1..], 'x');
    assert s[1..][|count|] == 'x';
    assert x.value == |count|;
    assert s[1..][..|count|] == count && s[1..][|count| + 1..] == size;
  }

  /** The text a spec is written as: its type letter, its count, `x`, its size. */
  function SpecText(q: QuerySpecOpt): string
    requires q.nTriplesPerQuery.Absolute?
  {
    [if q.queryType == InsertData then 'i' else 'd'] + Decimal(q.nQueries) + ['x'] + Decimal(q.nTriplesPerQuery.n)
  }

  /** Decimal digits hold neither the delimiter nor a trailing `%`. */
  lemma DigitsOnly(s: string)
    requires AllDigits(s)
    ensures 'x' !in s && (s == [] || s[|s| - 1] != '%')
  {
  }

  /** Writing an absolute spec and parsing it back gives the spec, when both numbers fit a `usize`. */
  lemma FromStrSpecText(q: QuerySpecOpt)
    requires q.nTriplesPerQuery.Absolute? && q.nQueries < TWO_TO_THE_64 && q.nTriplesPerQuery.n < TWO_TO_THE_64
    ensures FromStr(SpecText(q)) == Ok(q)
  {
    var t := if q.queryType == InsertData then 'i' else 'd';
    var count, size := Decimal(q.nQueries), Decimal(q.nTriplesPerQuery.n);
    ParseDecimal(q.nQueries);
    ParseDecimal(q.nTriplesPerQuery.n);
    DigitsOnly(count);
    DigitsOnly(size);
    FromStrAbsolute(t, count, size);
  }

  /**
   * `get_absolute`: an absolute size is taken as it is; for a percentage,
   * `scaled` gives what the program's floating-point scaling of the dataset
   * size yields.
   */
  function GetAbsolute(size: QuerySize, nTotalTriples: nat, scaled: (string, nat) -> nat): (r: nat)
    ensures size.Absolute? ==> r == size.n
  {
    match size
    case Absolute(n) => n
    case Percentage(text) => scaled(text, nTotalTriples)
  }

  /** The specs the generator runs with: each size made absolute against the main dataset's size. */
  function AbsoluteSpecs(opts: seq<QuerySpecOpt>, nTotalTriples: nat, scaled: (string, nat) -> nat): (r: seq<QuerySpec>)
    ensures |r| == |opts|
    ensures forall i :: 0 <= i < |r| ==>
      r[i].nQueries == opts[i].nQueries && r[i].queryType == opts[i].queryType
      && (opts[i].nTriplesPerQuery.Absolute? ==> r[i].nTriplesPerQuery == opts[i].nTriplesPerQuery.n)
  {
    seq(|opts|, i requires 0 <= i < |opts| =>
      QuerySpec(opts[i].nQueries, GetAbsolute(opts[i].nTriplesPerQuery, nTotalTriples, scaled), opts[i].queryType))
  }

  /** `total_query_triples`: the triples all specs ask for together. */
  function TotalQueryTriples(specs: seq<QuerySpec>): nat
  {
    if specs == [] then 0
    else
      var last := specs[|specs| - 1];
      TotalQueryTriples(specs[..|specs| - 1]) + last.nQueries * last.nTriplesPerQuery
  }

  /** The sizes of the planned queries, in plan order. */
  function Sizes(plan: seq<PlannedQuery>): (r: seq<nat>)
    ensures |r| == |plan| && forall i :: 0 <= i < |r| ==> r[i] == plan[i].size
  {
    seq(|plan|, i requires 0 <= i < |plan| => plan[i].size)
  }

  lemma {:induction false} SumAppend(a: seq<nat>, b: seq<nat>)
    ensures Sum(a + b) == Sum(a) + Sum(b)
    decreases |b|
  {
    if b == [] {
      assert a + b == a;
    } else {
      SumAppend(a, b[..|b| - 1]);
      assert (a + b)[..|a + b| - 1] == a + b[..|b| - 1];
    }
  }

  lemma {:induction false} SumRepeat(x: nat, n: nat)
    ensures Sum(Repeat(x, n)) == n * x
  {
    if n > 0 {
      SumRepeat(x, n - 1);
      assert Repeat(x, n)[..n - 1] == Repeat(x, n - 1);
    }
  }

  lemma SizesAppend(a: seq<PlannedQuery>, b: seq<PlannedQuery>)
    ensures Sizes(a + b) == Sizes(a) + Sizes(b)
  {
  }

  /** The pool size is the sum of the sizes of the planned queries. */
  lemma {:induction false} TotalIsPlanSizes(specs: seq<QuerySpec>)
    ensures TotalQueryTriples(specs) == Sum(Sizes(Expand(specs)))
  {
    if specs != [] {
      var last := specs[|specs| - 1];
      var block := Repeat(PlannedQuery(last.nTriplesPerQuery, last.queryType), last.nQueries);
      TotalIsPlanSizes(specs[..|specs| - 1]);
      SizesAppend(Expand(specs[..|specs| - 1]), block);
      SumAppend(Sizes(Expand(specs[..|specs| - 1])), Sizes(block));
      assert Sizes(block) == Repeat(last.nTriplesPerQuery, last.nQueries);
      SumRepeat(last.nTriplesPerQuery, last.nQueries);
    }
  }

  /** Taking element `i` out of a sequence takes its value out of the sum. */
  lemma SumRemove(s: seq<nat>, i: nat)
    requires i < |s|
    ensures Sum(s) == Sum(s[..i] + s[i + 1..]) + s[i]
  {
    SumAppend(s[..i], s[i..]);
    SumAppend([s[i]], s[i + 1..]);
    SumAppend(s[..i], s[i + 1..]);
    assert s == s[..i] + s[i..] && s[i..] == [s[i]] + s[i + 1..];
    assert Sum([s[i]]) == s[i] by {
      assert [s[i]][..0] == [];
    }
  }

  /** Taking query `i` out of a plan takes its size out of the sizes. */
  lemma SizesRemove(b: seq<PlannedQuery>, i: nat)
    requires i < |b|
    ensures Sum(Sizes(b)) == Sum(Sizes(b[..i] + b[i + 1..])) + b[i].size
  {
    SumRemove(Sizes(b), i);
    assert Sizes(b)[..i] + Sizes(b)[i + 1..] == Sizes(b[..i] + b[i + 1..]);
  }

  /** Taking an occurrence of `x` out of `b` leaves the rest of its multiset. */
  lemma MultisetRemove(b: seq<PlannedQuery>, i: nat)
    requires i < |b|
    ensures multiset(b[..i] + b[i + 1..]) == multiset(b) - multiset{b[i]}
  {
    assert b == b[..i] + [b[i]] + b[i + 1..];
  }

  lemma SizesSnoc(a: seq<PlannedQuery>)
    requires a != []
    ensures Sum(Sizes(a)) == Sum(Sizes(a[..|a| - 1])) + a[|a| - 1].size
  {
    assert Sizes(a)[..|a| - 1] == Sizes(a[..|a| - 1]);
  }

  /** Part of a plan asks for at most as many triples as the whole plan. */
  lemma {:induction false} SizesOfPart(a: seq<PlannedQuery>, b: seq<PlannedQuery>)
    requires multiset(a) <= multiset(b)
    ensures Sum(Sizes(a)) <= Sum(Sizes(b))
    decreases |a|
  {
    if a != [] {
      var init, last := a[..|a| - 1], a[|a| - 1];
      assert multiset(a) == multiset(init) + multiset{last} by {
        assert a == init + [last];
      }
      assert last in multiset(b);
      var i :| 0 <= i < |b| && b[i] == last;
      MultisetRemove(b, i);
      SizesOfPart(init, b[..i] + b[i + 1..]);
      SizesSnoc(a);
      SizesRemove(b, i);
    }
  }

  /** The sizes of a prefix add up to no more than the sizes of the whole. */
  lemma {:induction false} SumPrefix(s: seq<nat>, k: nat)
    requires k <= |s|
    ensures Sum(s[..k]) <= Sum(s)
    decreases |s|
  {
    if k < |s| {
      SumPrefix(s[..|s| - 1], k);
      assert s[..|s| - 1][..k] == s[..k];
    } else {
      assert s[..k] == s;
    }
  }

  /** Calls whose hints add up to at most the pool size all get what they ask for. */
  lemma FullCalls(total: nat, hints: seq<nat>, k: nat)
    requires Sum(hints) <= total && k < |hints|
    ensures Drawn(total, hints[..k]) == Sum(hints[..k])
    ensures Min(hints[k], total - Drawn(total, hints[..k])) == hints[k]
  {
    SumPrefix(hints, k + 1);
    assert hints[..k + 1][..k] == hints[..k];
    DrawnIsCappedSum(total, hints[..k]);
  }

  /** Whatever order the plan is put in, it asks for at most `total_query_triples`. */
  lemma PlanWithinTotal(specs: seq<QuerySpec>, order: OutputOrder, shuffled: seq<PlannedQuery>)
    requires multiset(shuffled) == multiset(Expand(specs))
    requires Reordered(order, Expand(specs), shuffled).Ok?
    ensures Sum(Sizes(Reordered(order, Expand(specs), shuffled).value)) <= TotalQueryTriples(specs)
  {
    ReorderedFromPlan(order, Expand(specs), shuffled);
    SizesOfPart(Reordered(order, Expand(specs), shuffled).value, Expand(specs));
    TotalIsPlanSizes(specs);
  }

  /**
   * The distinct generator's pool is `total_query_triples`, so whatever order
   * the plan is put in, every query gets all the triples it asks for: the
   * `k`-th call finds at least its size left in the pool.
   */
  lemma DistinctPoolSuffices(specs: seq<QuerySpec>, order: OutputOrder, shuffled: seq<PlannedQuery>, k: nat)
    requires multiset(shuffled) == multiset(Expand(specs))
    requires Reordered(order, Expand(specs), shuffled).Ok? && k < |Reordered(order, Expand(specs), shuffled).value|
    ensures var plan := Reordered(order, Expand(specs), shuffled).value;
      var total := TotalQueryTriples(specs);
      Drawn(total, Sizes(plan[..k])) == Sum(Sizes(plan[..k]))
      && Min(plan[k].size, total - Drawn(total, Sizes(plan[..k]))) == plan[k].size
  {
    var plan := Reordered(order, Expand(specs), shuffled).value;
    PlanWithinTotal(specs, order, shuffled);
    FullCalls(TotalQueryTriples(specs), Sizes(plan), k);
    assert Sizes(plan)[..k] == Sizes(plan[..k]);
  }

  /** No file name ends in both suffixes. */
  lemma SuffixesExclusive(fileName: Bytes)
    ensures EndsWith(fileName, REMOVED) ==> !EndsWith(fileName, ADDED)
  {
    if EndsWith(fileName, REMOVED) {
      var n := |fileName|;
      assert fileName[n - 19] == REMOVED[2] == 'm' as int;
      assert ADDED[0] == 'a' as int;
    }
  }

  const ADDED: Bytes := Ascii("added.compressed_nt")
  const REMOVED: Bytes := Ascii("removed.compressed_nt")

  /**
   * The query type a dataset file is replicated as: in `Query` output, by
   * the end of its name (other names are skipped); in `NTriples` output the
   * type has no meaning and is always `DeleteData`.
   */
  function ReplicaQueryType(fileName: Bytes, format: OutputFormat): Option<QueryType>
  {
    match format
    case NTriples => Some(DeleteData)
    case Query =>
      if EndsWith(fileName, ADDED) then Some(InsertData)
      else if EndsWith(fileName, REMOVED) then Some(DeleteData)
      else None
  }

  /**
   * In `Query` output a file is an insert query exactly when its name ends
   * in `added.compressed_nt`, a delete query exactly when it ends in
   * `removed.compressed_nt`, and skipped otherwise.
   */
  lemma ReplicaQueryTypeSpec(fileName: Bytes, format: OutputFormat)
    ensures format == NTriples ==> ReplicaQueryType(fileName, format) == Some(DeleteData)
    ensures format == Query ==>
      && (ReplicaQueryType(fileName, format) == Some(InsertData) <==> EndsWith(fileName, ADDED))
      && (ReplicaQueryType(fileName, format) == Some(DeleteData) <==> EndsWith(fileName, REMOVED))
      && (ReplicaQueryType(fileName, format).None? <==> !EndsWith(fileName, ADDED) && !EndsWith(fileName, REMOVED))
  {
    SuffixesExclusive(fileName);
  }
}
