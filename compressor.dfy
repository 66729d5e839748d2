/**
 * `RdfTripleCompressor` (src/rdf/triple_compressor/compressor.rs): the term
 * dictionary `translations` (id to bytes, first writer wins), the triple
 * deduplicator `dedup`, the raw line splitter, the parsed-term filter, and the
 * state file it saves. The hash function (`ahash`) is a parameter: the term
 * hash and the triple hash are fixed when the compressor is created.
 */
module Compressor {
  import opened Common
  import opened Words
  import opened OrderedMap
  import opened TripleStore
  import opened Decompressor
  import opened CompressorState

  /** The ids of a triple's terms: the hash of each term's bytes. */
  function TermIds(t: RawTriple, hash: Bytes -> TripleElementId): CompressedTriple
  {
    CompressedTriple(hash(t.s), hash(t.p), hash(t.o))
  }

  /** The dictionary after interning one triple's terms, subject, then predicate, then object. */
  function Intern(es: seq<Entry<Bytes>>, t: RawTriple, hash: Bytes -> TripleElementId): (r: seq<Entry<Bytes>>)
    requires StrictlySorted(es)
    ensures StrictlySorted(r)
  {
    OrInsert(OrInsert(OrInsert(es, hash(t.s), t.s), hash(t.p), t.p), hash(t.o), t.o)
  }

  /** Interning adds exactly the triple's three ids to the keys. */
  lemma InternKeys(es: seq<Entry<Bytes>>, t: RawTriple, hash: Bytes -> TripleElementId)
    requires StrictlySorted(es)
    ensures KeySet(Intern(es, t, hash)) == KeySet(es) + {hash(t.s), hash(t.p), hash(t.o)}
  {
  }

  /**
   * Interning never overwrites: every id already present keeps its bytes, an
   * absent subject id gets the subject's bytes, and no other id changes.
   */
  lemma InternSpec(es: seq<Entry<Bytes>>, t: RawTriple, hash: Bytes -> TripleElementId)
    requires StrictlySorted(es)
    ensures forall k :: k in KeySet(es) ==> Get(Intern(es, t, hash), k) == Get(es, k)
    ensures forall k :: k != hash(t.s) && k != hash(t.p) && k != hash(t.o) ==> Get(Intern(es, t, hash), k) == Get(es, k)
    ensures hash(t.s) !in KeySet(es) ==> Get(Intern(es, t, hash), hash(t.s)) == Some(t.s)
  {
  }

  /** Every stored text is stored under its own hash. */
  predicate Faithful(es: seq<Entry<Bytes>>, hash: Bytes -> TripleElementId)
  {
    forall k :: k in KeySet(es) ==> Get(es, k).Some? && hash(Get(es, k).value) == k
  }

  /** Interning keeps the dictionary faithful to the hash. */
  lemma InternFaithful(es: seq<Entry<Bytes>>, t: RawTriple, hash: Bytes -> TripleElementId)
    requires StrictlySorted(es) && Faithful(es, hash)
    ensures Faithful(Intern(es, t, hash), hash)
  {
    var e1 := OrInsert(es, hash(t.s), t.s);
    var e2 := OrInsert(e1, hash(t.p), t.p);
    assert Faithful(e1, hash);
    assert Faithful(e2, hash);
  }

  /**
   * Without a hash collision (no other text stored under one of the triple's
   * ids, and no two of its own terms sharing an id unless equal), the
   * dictionary maps each of the triple's ids to that term after interning.
   */
  lemma InternRecall(es: seq<Entry<Bytes>>, t: RawTriple, hash: Bytes -> TripleElementId)
    requires StrictlySorted(es)
    requires forall x :: x in {t.s, t.p, t.o} && hash(x) in KeySet(es) ==> Get(es, hash(x)) == Some(x)
    requires forall x, y :: x in {t.s, t.p, t.o} && y in {t.s, t.p, t.o} && hash(x) == hash(y) ==> x == y
    ensures var r := Intern(es, t, hash);
      Get(r, hash(t.s)) == Some(t.s) && Get(r, hash(t.p)) == Some(t.p) && Get(r, hash(t.o)) == Some(t.o)
  {
  }

  /** The dictionary after interning a sequence of triples in order. */
  function InternAll(es: seq<Entry<Bytes>>, ts: seq<RawTriple>, hash: Bytes -> TripleElementId): (r: seq<Entry<Bytes>>)
    requires StrictlySorted(es)
    ensures StrictlySorted(r)
  {
    if ts == [] then es else Intern(InternAll(es, ts[..|ts| - 1], hash), ts[|ts| - 1], hash)
  }

  /** Interning more triples keeps every id that was a key, with its bytes. */
  lemma {:induction false} InternAllKeeps(es: seq<Entry<Bytes>>, ts: seq<RawTriple>, hash: Bytes -> TripleElementId, k: TripleElementId)
    requires StrictlySorted(es) && k in KeySet(es)
    ensures k in KeySet(InternAll(es, ts, hash)) && Get(InternAll(es, ts, hash), k) == Get(es, k)
  {
    if ts != [] {
      var before := InternAll(es, ts[..|ts| - 1], hash);
      InternAllKeeps(es, ts[..|ts| - 1], hash, k);
      InternKeys(before, ts[|ts| - 1], hash);
      InternSpec(before, ts[|ts| - 1], hash);
    }
  }

  /** All three of a triple's ids are keys of the dictionary. */
  predicate HasIds(es: seq<Entry<Bytes>>, t: RawTriple, hash: Bytes -> TripleElementId)
  {
    hash(t.s) in KeySet(es) && hash(t.p) in KeySet(es) && hash(t.o) in KeySet(es)
  }

  /** After interning triples, the ids of each of them are keys. */
  lemma {:induction false} InternAllHas(es: seq<Entry<Bytes>>, ts: seq<RawTriple>, hash: Bytes -> TripleElementId, i: nat)
    requires StrictlySorted(es) && i < |ts|
    ensures HasIds(InternAll(es, ts, hash), ts[i], hash)
  {
    var n := |ts| - 1;
    var init, last := ts[..n], ts[n];
    var before := InternAll(es, init, hash);
    assert InternAll(es, ts, hash) == Intern(before, last, hash);
    InternKeys(before, last, hash);
    if i == n {
      assert ts[i] == last;
    } else {
      InternAllHas(es, init, hash, i);
      assert init[i] == ts[i];
    }
  }

  lemma AppendOne(es: seq<Entry<Bytes>>, ts: seq<RawTriple>, t: RawTriple, hash: Bytes -> TripleElementId)
    requires StrictlySorted(es)
    ensures InternAll(es, ts + [t], hash) == Intern(InternAll(es, ts, hash), t, hash)
    ensures IdsOf(ts + [t], hash) == IdsOf(ts, hash) + [TermIds(t, hash)]
  {
    assert (ts + [t])[..|ts|] == ts;
  }

  /** The ids of each triple, in order. */
  function IdsOf(ts: seq<RawTriple>, hash: Bytes -> TripleElementId): (r: seq<CompressedTriple>)
    ensures |r| == |ts|
  {
    if ts == [] then [] else IdsOf(ts[..|ts| - 1], hash) + [TermIds(ts[|ts| - 1], hash)]
  }

  lemma {:induction false} IdsOfAt(ts: seq<RawTriple>, hash: Bytes -> TripleElementId, i: nat)
    requires i < |ts|
    ensures IdsOf(ts, hash)[i] == TermIds(ts[i], hash)
  {
    if i < |ts| - 1 {
      IdsOfAt(ts[..|ts| - 1], hash, i);
    }
  }

  /** The triple hashes of a sequence of compressed triples. */
  function Hashes(ids: seq<CompressedTriple>, h: CompressedTriple -> TripleId): set<TripleId>
  {
    if ids == [] then {} else Hashes(ids[..|ids| - 1], h) + {h(ids[|ids| - 1])}
  }

  lemma {:induction false} InHashes(ids: seq<CompressedTriple>, h: CompressedTriple -> TripleId, x: TripleId)
    ensures x in Hashes(ids, h) <==> exists i :: 0 <= i < |ids| && h(ids[i]) == x
  {
    if ids != [] {
      var init := ids[..|ids| - 1];
      InHashes(init, h, x);
      if x in Hashes(init, h) {
        var i :| 0 <= i < |init| && h(init[i]) == x;
        assert h(ids[i]) == x;
      }
      if exists i :: 0 <= i < |ids| && h(ids[i]) == x {
        var i :| 0 <= i < |ids| && h(ids[i]) == x;
        if i < |init| { assert h(init[i]) == x; }
      }
    }
  }

  /**
   * The triples that deduplication lets through: those whose hash was not
   * seen before, neither in `seen` nor earlier in `ids`.
   */
  function KeepFirst(ids: seq<CompressedTriple>, seen: set<TripleId>, h: CompressedTriple -> TripleId): seq<CompressedTriple>
  {
    if ids == [] then []
    else
      var init, last := ids[..|ids| - 1], ids[|ids| - 1];
      KeepFirst(init, seen, h) + (if h(last) in seen + Hashes(init, h) then [] else [last])
  }

  /**
   * Deduplication loses only repeats: each kept triple is an input triple,
   * kept triples have pairwise distinct hashes none of which was seen before,
   * and every input hash was seen before or belongs to a kept triple.
   */
  lemma {:induction false} KeepFirstSpec(ids: seq<CompressedTriple>, seen: set<TripleId>, h: CompressedTriple -> TripleId)
    ensures forall x :: x in KeepFirst(ids, seen, h) ==> x in ids
    ensures forall i :: 0 <= i < |KeepFirst(ids, seen, h)| ==> h(KeepFirst(ids, seen, h)[i]) !in seen
    ensures forall i, j :: 0 <= i < j < |KeepFirst(ids, seen, h)| ==>
      h(KeepFirst(ids, seen, h)[i]) != h(KeepFirst(ids, seen, h)[j])
    ensures seen + Hashes(ids, h) == seen + Hashes(KeepFirst(ids, seen, h), h)
  {
    if ids != [] {
      var init, last := ids[..|ids| - 1], ids[|ids| - 1];
      KeepFirstSpec(init, seen, h);
      var kept := KeepFirst(init, seen, h);
      assert Hashes(ids, h) == Hashes(init, h) + {h(last)};
      if h(last) !in seen + Hashes(init, h) {
        assert KeepFirst(ids, seen, h) == kept + [last];
        assert (kept + [last])[..|kept|] == kept;
        assert Hashes(kept + [last], h) == Hashes(kept, h) + {h(last)};
        forall i | 0 <= i < |kept|
          ensures h(kept[i]) != h(last)
        {
          InHashes(kept, h, h(kept[i]));
        }
      } else {
        assert KeepFirst(ids, seen, h) == kept + [];
        assert kept + [] == kept;
      }
    }
  }

  /** What the reader hands to the writer: every triple, or with `dedup` only the first of each hash. */
  function Emitted(ids: seq<CompressedTriple>, seen: set<TripleId>, h: CompressedTriple -> TripleId, dedup: bool): seq<CompressedTriple>
  {
    if dedup then KeepFirst(ids, seen, h) else ids
  }

  /** The deduplicator's hashes afterwards: unchanged unless `dedup` is on. */
  function SeenAfter(ids: seq<CompressedTriple>, seen: set<TripleId>, h: CompressedTriple -> TripleId, dedup: bool): set<TripleId>
  {
    if dedup then seen + Hashes(ids, h) else seen
  }

  /** `s` does not contain `b`. */
  predicate NoByte(s: Bytes, b: byte)
  {
    forall j :: 0 <= j < |s| ==> s[j] != b
  }

  /** The first index of byte `b` in `s`. */
  function IndexOf(s: Bytes, b: byte): (r: Option<nat>)
    ensures r.Some? ==> r.value < |s| && s[r.value] == b && forall j :: 0 <= j < r.value ==> s[j] != b
    ensures r.None? ==> forall j :: 0 <= j < |s| ==> s[j] != b
  {
    if s == [] then None
    else if s[0] == b then Some(0)
    else match IndexOf(s[1..], b)
      case None => None
      case Some(i) => Some(i + 1)
  }

  /** `BufRead::split(b'\n')`: the pieces between newlines; a final newline opens no empty piece. */
  function Lines(input: Bytes): seq<Bytes>
    decreases |input|
  {
    if input == [] then []
    else match IndexOf(input, NEWLINE)
      case None => [input]
      case Some(i) => [input[..i]] + Lines(input[i + 1..])
  }

  /** Lines each followed by a newline. */
  function Terminated(lines: seq<Bytes>): Bytes
  {
    if lines == [] then [] else lines[0] + [NEWLINE] + Terminated(lines[1..])
  }

  /** The lines hold no newline. */
  lemma {:induction false} LinesNoNewline(input: Bytes)
    ensures forall l :: l in Lines(input) ==> NoByte(l, NEWLINE)
    decreases |input|
  {
    if input != [] {
      match IndexOf(input, NEWLINE) {
        case None =>
        case Some(i) =>
          LinesNoNewline(input[i + 1..]);
      }
    }
  }

  /** The input with a newline added unless it is empty or already ends with one. */
  function WithFinalNewline(input: Bytes): Bytes
  {
    if input == [] || input[|input| - 1] == NEWLINE then input else input + [NEWLINE]
  }

  lemma TerminatedCons(line: Bytes, lines: seq<Bytes>)
    ensures Terminated([line] + lines) == line + [NEWLINE] + Terminated(lines)
  {
    assert ([line] + lines)[1..] == lines;
  }

  /** The first line and its newline, followed by the rest of the input. */
  lemma WithFinalNewlineSplit(input: Bytes, i: nat)
    requires i < |input| && input[i] == NEWLINE
    ensures WithFinalNewline(input) == input[..i] + [NEWLINE] + WithFinalNewline(input[i + 1..])
  {
    var rest := input[i + 1..];
    assert input == input[..i] + [NEWLINE] + rest;
    if rest != [] {
      assert rest[|rest| - 1] == input[|input| - 1];
    }
  }

  /** Putting each line back with its newline gives the input, plus one newline when the input did not end with one. */
  lemma {:induction false} LinesTerminated(input: Bytes)
    ensures Terminated(Lines(input)) == WithFinalNewline(input)
    decreases |input|
  {
    if input != [] {
      match IndexOf(input, NEWLINE) {
        case None =>
          assert Lines(input) == [input];
          TerminatedCons(input, []);
        case Some(i) =>
          var rest := input[i + 1..];
          LinesTerminated(rest);
          assert Lines(input) == [input[..i]] + Lines(rest);
          TerminatedCons(input[..i], Lines(rest));
          WithFinalNewlineSplit(input, i);
      }
    }
  }

  /** Why a raw line makes the reader panic. */
  datatype LineFault =
    | MissingPredicate   // no space at all: the second `unwrap` fails
    | MissingObject      // one space only: the third `unwrap` fails
    | MissingTerminator  // the object does not end with ` .`: the `assert!` fails

  datatype LineOutcome = Skip | Accept(triple: RawTriple) | Fault(fault: LineFault)

  /**
   * One raw line: empty lines and `#` comments are skipped; the line is split
   * at its first two spaces (`splitn(3, ' ')`); the object must end with ` .`,
   * which is stripped; a subject or object starting with `_` (a blank node)
   * is skipped.
   */
  function SplitLine(line: Bytes): LineOutcome
  {
    if line == [] || line[0] == NUMBER_SIGN then Skip
    else match IndexOf(line, SPACE)
      case None => Fault(MissingPredicate)
      case Some(i) => SplitPredicate(line[..i], line[i + 1..])
  }

  /** The part of a line after its subject: split at its first space into predicate and object. */
  function SplitPredicate(subject: Bytes, rest: Bytes): LineOutcome
  {
    match IndexOf(rest, SPACE)
    case None => Fault(MissingObject)
    case Some(j) => StripTerminator(subject, rest[..j], rest[j + 1..])
  }

  /** The object with its ` .` stripped, and blank-node subjects and objects passed over. */
  function StripTerminator(subject: Bytes, pred: Bytes, objectDot: Bytes): LineOutcome
  {
    if !EndsWith(objectDot, [SPACE, DOT]) then Fault(MissingTerminator)
    else
      var obj := objectDot[..|objectDot| - 2];
      if StartsWith(subject, [UNDERSCORE]) || StartsWith(obj, [UNDERSCORE]) then Skip
      else Accept(RawTriple(subject, pred, obj))
  }

  /** The line a triple is written as by `decompress_rdf_triple_file`, without its newline. */
  function RawLine(t: RawTriple): Bytes
  {
    t.s + [SPACE] + t.p + [SPACE] + t.o + [SPACE, DOT]
  }

  /** A written-out triple is its subject, a space, and the rest of the line. */
  lemma RawLineSplit(t: RawTriple)
    ensures RawLine(t) == t.s + [SPACE] + (t.p + [SPACE] + t.o + [SPACE, DOT])
  {
  }

  lemma SplitAround(s: Bytes, i: nat)
    requires i < |s|
    ensures s == s[..i] + [s[i]] + s[i + 1..]
  {
  }

  /** In `a + [b] + rest` with no `b` in `a`, the first `b` is the one after `a`. */
  lemma IndexOfAfter(a: Bytes, rest: Bytes, b: byte)
    requires NoByte(a, b)
    ensures IndexOf(a + [b] + rest, b) == Some(|a|)
  {
    var s := a + [b] + rest;
    assert s[|a|] == b;
    assert forall j :: 0 <= j < |a| ==> s[j] == a[j];
  }

  /** Neither subject nor object is a blank node. */
  predicate NotBlank(t: RawTriple)
  {
    !StartsWith(t.s, [UNDERSCORE]) && !StartsWith(t.o, [UNDERSCORE])
  }

  /** The last stage accepts `t` exactly when the object text is `t`'s object followed by ` .`. */
  lemma StripTerminatorAccept(subject: Bytes, pred: Bytes, objectDot: Bytes, t: RawTriple)
    ensures StripTerminator(subject, pred, objectDot) == Accept(t) <==>
      subject == t.s && pred == t.p && objectDot == t.o + [SPACE, DOT] && NotBlank(t)
  {
    if objectDot == t.o + [SPACE, DOT] {
      assert objectDot[|objectDot| - 2..] == [SPACE, DOT];
      assert objectDot[..|objectDot| - 2] == t.o;
    }
    if StripTerminator(subject, pred, objectDot) == Accept(t) {
      assert objectDot == objectDot[..|objectDot| - 2] + objectDot[|objectDot| - 2..];
    }
  }

  /** The middle stage accepts `t` exactly when the rest of the line is `t`'s predicate, free of spaces, and its object text. */
  lemma SplitPredicateAccept(subject: Bytes, rest: Bytes, t: RawTriple)
    ensures SplitPredicate(subject, rest) == Accept(t) <==>
      subject == t.s && rest == t.p + [SPACE] + t.o + [SPACE, DOT] && NoByte(t.p, SPACE) && NotBlank(t)
  {
    var objectDot := t.o + [SPACE, DOT];
    if SplitPredicate(subject, rest) == Accept(t) {
      var j := IndexOf(rest, SPACE).value;
      StripTerminatorAccept(subject, rest[..j], rest[j + 1..], t);
      assert rest == rest[..j] + [SPACE] + rest[j + 1..];
      assert forall k :: 0 <= k < j ==> rest[..j][k] == rest[k];
    }
    if rest == t.p + [SPACE] + objectDot && NoByte(t.p, SPACE) {
      IndexOfAfter(t.p, objectDot, SPACE);
      assert rest[..|t.p|] == t.p && rest[|t.p| + 1..] == objectDot;
      StripTerminatorAccept(subject, t.p, objectDot, t);
    }
  }

  /** The triple `t` written out as a line, with subject and predicate free of spaces, that is neither a comment nor a blank-node triple. */
  predicate AcceptableLine(line: Bytes, t: RawTriple)
  {
    && line == RawLine(t)
    && NoByte(t.s, SPACE) && NoByte(t.p, SPACE)
    && !StartsWith(t.s, [NUMBER_SIGN])
    && NotBlank(t)
  }

  /** An accepted line has a subject free of spaces, then a space, then a rest the middle stage accepts. */
  lemma SplitLineSubject(line: Bytes, t: RawTriple) returns (i: nat)
    requires SplitLine(line) == Accept(t)
    ensures i < |line| && line[0] != NUMBER_SIGN && line == line[..i] + [SPACE] + line[i + 1..]
    ensures NoByte(line[..i], SPACE) && SplitPredicate(line[..i], line[i + 1..]) == Accept(t)
  {
    i := IndexOf(line, SPACE).value;
    SplitAround(line, i);
    assert NoByte(line[..i], SPACE) by {
      assert forall k :: 0 <= k < i ==> line[..i][k] == line[k];
    }
  }

  /** An accepted line is its triple written out. */
  lemma SplitLineSound(line: Bytes, t: RawTriple)
    requires SplitLine(line) == Accept(t)
    ensures AcceptableLine(line, t)
  {
    var i := SplitLineSubject(line, t);
    SplitPredicateAccept(line[..i], line[i + 1..], t);
    RawLineSplit(t);
    if t.s != [] {
      assert t.s[..1] == [line[0]];
    }
  }

  /** A triple written out as an acceptable line is accepted as itself. */
  lemma SplitLineComplete(line: Bytes, t: RawTriple)
    requires AcceptableLine(line, t)
    ensures SplitLine(line) == Accept(t)
  {
    var rest := t.p + [SPACE] + t.o + [SPACE, DOT];
    RawLineSplit(t);
    if t.s == [] {
      assert line[0] == SPACE;
    } else {
      assert t.s[..1] == [t.s[0]] && line[0] == t.s[0];
    }
    IndexOfAfter(t.s, rest, SPACE);
    assert line[..|t.s|] == t.s && line[|t.s| + 1..] == rest;
    SplitPredicateAccept(t.s, rest, t);
  }

  /** A line is accepted as `t` exactly when it is `t` written out as an acceptable line. */
  lemma SplitLineAccept(line: Bytes, t: RawTriple)
    ensures SplitLine(line) == Accept(t) <==> AcceptableLine(line, t)
  {
    if SplitLine(line) == Accept(t) {
      SplitLineSound(line, t);
    }
    if AcceptableLine(line, t) {
      SplitLineComplete(line, t);
    }
  }

  /**
   * The triples accepted from raw lines, in order; the first faulting line
   * makes the whole reader panic.
   */
  function AcceptRaw(lines: seq<Bytes>): Result<seq<RawTriple>, LineFault>
  {
    if lines == [] then Ok([])
    else match AcceptRaw(lines[..|lines| - 1])
      case Err(f) => Err(f)
      case Ok(acc) =>
        match SplitLine(lines[|lines| - 1])
        case Skip => Ok(acc)
        case Fault(f) => Err(f)
        case Accept(t) => Ok(acc + [t])
  }

  /** A fault in some line is a fault of the whole input. */
  lemma {:induction false} AcceptRawFault(lines: seq<Bytes>, n: nat)
    requires n <= |lines| && AcceptRaw(lines[..n]).Err?
    ensures AcceptRaw(lines).Err? && AcceptRaw(lines).error == AcceptRaw(lines[..n]).error
  {
    if n < |lines| {
      assert lines[..|lines| - 1][..n] == lines[..n];
      AcceptRawFault(lines[..|lines| - 1], n);
    } else {
      assert lines[..n] == lines;
    }
  }

  /** One more line, after the lines before it were all accepted or skipped. */
  lemma AcceptRawStep(lines: seq<Bytes>, i: nat, acc: seq<RawTriple>)
    requires i < |lines| && AcceptRaw(lines[..i]) == Ok(acc)
    ensures AcceptRaw(lines[..i + 1]) ==
      match SplitLine(lines[i])
      case Skip => Ok(acc)
      case Fault(f) => Err(f)
      case Accept(t) => Ok(acc + [t])
  {
    assert lines[..i + 1][..i] == lines[..i];
  }

  /**
   * The triples the raw reader hands over before it stops: those of the lines
   * before the first faulting line, or of all lines when none faults.
   */
  function AcceptedBefore(lines: seq<Bytes>): seq<RawTriple>
  {
    if lines == [] then []
    else
      var init := lines[..|lines| - 1];
      if AcceptRaw(init).Err? then AcceptedBefore(init)
      else match SplitLine(lines[|lines| - 1])
        case Accept(t) => AcceptedBefore(init) + [t]
        case _ => AcceptedBefore(init)
  }

  /** Without a fault, the reader hands over exactly the accepted triples. */
  lemma {:induction false} AcceptedBeforeOk(lines: seq<Bytes>)
    requires AcceptRaw(lines).Ok?
    ensures AcceptedBefore(lines) == AcceptRaw(lines).value
  {
    if lines != [] {
      AcceptedBeforeOk(lines[..|lines| - 1]);
    }
  }

  /** After a faulting line, no later line adds anything. */
  lemma {:induction false} AcceptedBeforeStop(lines: seq<Bytes>, n: nat)
    requires n <= |lines| && AcceptRaw(lines[..n]).Err?
    ensures AcceptedBefore(lines) == AcceptedBefore(lines[..n])
  {
    if n < |lines| {
      var init := lines[..|lines| - 1];
      assert init[..n] == lines[..n];
      AcceptRawFault(init, n);
      AcceptedBeforeStop(init, n);
    } else {
      assert lines[..n] == lines;
    }
  }

  /** Line `i` is the first to fault: the reader stops there with that fault. */
  lemma AcceptedBeforeFault(lines: seq<Bytes>, i: nat, acc: seq<RawTriple>)
    requires i < |lines| && AcceptRaw(lines[..i]) == Ok(acc) && SplitLine(lines[i]).Fault?
    ensures AcceptRaw(lines) == Err(SplitLine(lines[i]).fault)
    ensures AcceptedBefore(lines) == acc
  {
    AcceptRawStep(lines, i, acc);
    AcceptRawFault(lines, i + 1);
    AcceptedBeforeOk(lines[..i]);
    assert lines[..i + 1][..i] == lines[..i];
    AcceptedBeforeStop(lines, i + 1);
  }

  /** The kind of an RDF term as the N-Triples parser reports it. */
  datatype TermKind = NamedNode | BlankNode | Literal | QuotedTriple

  /** A parsed term: its kind and its N-Triples text (what `to_string` gives). */
  datatype Term = Term(kind: TermKind, text: Bytes)

  datatype ParsedTriple = ParsedTriple(subject: Term, pred: Term, obj: Term)

  /** One step of the parser: a triple, or a syntax error that is reported and passed over. */
  datatype ParseStep = Parsed(triple: ParsedTriple) | SyntaxError

  /** The parsed path keeps triples whose subject is a named node and whose object is a named node or a literal. */
  predicate Kept(t: ParsedTriple)
  {
    t.subject.kind == NamedNode && (t.obj.kind == NamedNode || t.obj.kind == Literal)
  }

  function TextOf(t: ParsedTriple): RawTriple
  {
    RawTriple(t.subject.text, t.pred.text, t.obj.text)
  }

  /** The texts of the kept triples, in order. */
  function AcceptParsed(steps: seq<ParseStep>): seq<RawTriple>
  {
    if steps == [] then []
    else
      var last := steps[|steps| - 1];
      AcceptParsed(steps[..|steps| - 1]) + (if last.Parsed? && Kept(last.triple) then [TextOf(last.triple)] else [])
  }

  /** One more parser step. */
  lemma AcceptParsedStep(steps: seq<ParseStep>, i: nat)
    requires i < |steps|
    ensures AcceptParsed(steps[..i + 1]) ==
      AcceptParsed(steps[..i]) + (if steps[i].Parsed? && Kept(steps[i].triple) then [TextOf(steps[i].triple)] else [])
  {
    assert steps[..i + 1][..i] == steps[..i];
  }

  /** A triple is accepted exactly when it was parsed and has the kept kinds; order is preserved. */
  lemma {:induction false} AcceptParsedSpec(steps: seq<ParseStep>)
    ensures forall t :: t in AcceptParsed(steps) <==>
      exists i :: 0 <= i < |steps| && steps[i].Parsed? && Kept(steps[i].triple) && TextOf(steps[i].triple) == t
  {
    if steps != [] {
      var init := steps[..|steps| - 1];
      AcceptParsedSpec(init);
      assert forall i :: 0 <= i < |init| ==> init[i] == steps[i];
    }
  }

  /**
   * The writer thread of `compress_rdf_triple_file`: each triple's three ids
   * as native-endian machine words, in the order received.
   */
  method WriteTriples(ts: seq<CompressedTriple>) returns (file: Bytes)
    ensures LoadTriples(file) == Some(ts)
  {
    file := [];
    var k := 0;
    while k < |ts|
      invariant 0 <= k <= |ts|
      invariant file == TriplesBytes(ts[..k])
    {
      assert ts[..k + 1][..k] == ts[..k];
      file := file + Word(ts[k].s) + Word(ts[k].p) + Word(ts[k].o);
      k := k + 1;
    }
    assert ts[..k] == ts;
    LoadTriplesBytes(ts);
  }

  /** Why `compress_rdf_triple_file` fails. */
  datatype CompressError =
    | OutputExists         // `create_new` refuses an existing output file
    | ReaderPanic(fault: LineFault, partial: Bytes)  // the raw reader thread panicked on a line; `partial` is what the writer left in the output file

  /** One iteration of `from_decompressor`: record `i`'s slice of the data segment inserted under its id. */
  method InsertRecord(frozen: RdfTripleDecompressor, i: nat, es: seq<Entry<Bytes>>) returns (es': seq<Entry<Bytes>>)
    requires InBounds(frozen) && i < |frozen.header| && es == Rebuild(frozen, i)
    ensures es' == Rebuild(frozen, i + 1)
  {
    var rec := frozen.header[i];
    RebuildStep(frozen, i);
    es' := Insert(es, rec.hash, frozen.dataSegment[rec.start..rec.end]);
  }

  /**
   * Compressing a triple, saving the state, loading it back and
   * decompressing the triple's ids gives the triple back, as long as no hash
   * collides (the program does not detect collisions) and nothing wraps.
   */
  lemma CompressRoundTrip(es: seq<Entry<Bytes>>, t: RawTriple, hash: Bytes -> TripleElementId)
    requires StrictlySorted(es)
    requires forall x :: x in {t.s, t.p, t.o} && hash(x) in KeySet(es) ==> Get(es, hash(x)) == Some(x)
    requires forall x, y :: x in {t.s, t.p, t.o} && y in {t.s, t.p, t.o} && hash(x) == hash(y) ==> x == y
    requires |Intern(es, t, hash)| * RECORD_SIZE < TWO_TO_THE_64 && |DataSegment(Intern(es, t, hash))| < TWO_TO_THE_64
    ensures var d := LoadState(StateFile(Intern(es, t, hash)));
      d.Ok? && InBounds(d.value) && DecompressTriple(d.value, TermIds(t, hash)) == Some(t)
  {
    var es' := Intern(es, t, hash);
    InternKeys(es, t, hash);
    InternRecall(es, t, hash);
    SaveLoad(es');
    SavedLookup(es', TermIds(t, hash));
  }

  class RdfTripleCompressor {
    /** Term id to term bytes, in ascending id order. */
    var translations: seq<Entry<Bytes>>
    /** Hashes of the triples emitted so far while deduplicating. */
    var dedup: set<TripleId>
    /** `hash_single` on a term's bytes. */
    const hashTerm: Bytes -> TripleElementId
    /** `hash_single` on a triple's three ids. */
    const hashTriple: CompressedTriple -> TripleId

    ghost predicate Valid()
      reads this
    {
      StrictlySorted(translations)
    }

    /** `RdfTripleCompressor::new`: an empty dictionary and deduplicator. */
    constructor (hashTerm: Bytes -> TripleElementId, hashTriple: CompressedTriple -> TripleId)
      ensures Valid() && translations == [] && dedup == {}
      ensures this.hashTerm == hashTerm && this.hashTriple == hashTriple
    {
      this.hashTerm := hashTerm;
      this.hashTriple := hashTriple;
      translations := [];
      dedup := {};
    }

    /**
     * `from_decompressor`: every header record's slice of the data segment
     * inserted under the record's id, and an empty deduplicator.
     */
    constructor FromDecompressor(frozen: RdfTripleDecompressor, hashTerm: Bytes -> TripleElementId,
                                 hashTriple: CompressedTriple -> TripleId)
      requires InBounds(frozen)
      ensures Valid() && translations == Rebuild(frozen, |frozen.header|) && dedup == {}
      ensures this.hashTerm == hashTerm && this.hashTriple == hashTriple
    {
      this.hashTerm := hashTerm;
      this.hashTriple := hashTriple;
      dedup := {};
      var es: seq<Entry<Bytes>> := [];
      var i := 0;
      while i < |frozen.header|
        invariant 0 <= i <= |frozen.header|
        invariant es == Rebuild(frozen, i)
      {
        es := InsertRecord(frozen, i, es);
        i := i + 1;
      }
      translations := es;
    }

    /** `found_new_triple`: records the triple's hash; true when it was not recorded before. */
    method FoundNewTriple(t: CompressedTriple) returns (isNew: bool)
      modifies this`dedup
      ensures isNew <==> hashTriple(t) !in old(dedup)
      ensures dedup == old(dedup) + {hashTriple(t)}
    {
      var h := hashTriple(t);
      isNew := h !in dedup;
      dedup := dedup + {h};
    }

    /** `compress_raw_rdf_triple`: interns the three terms and returns their ids. */
    method CompressRawTriple(t: RawTriple) returns (ids: CompressedTriple)
      requires Valid()
      modifies this`translations
      ensures Valid()
      ensures ids == TermIds(t, hashTerm)
      ensures translations == Intern(old(translations), t, hashTerm)
    {
      var sh, ph, oh := hashTerm(t.s), hashTerm(t.p), hashTerm(t.o);
      translations := OrInsert(translations, sh, t.s);
      translations := OrInsert(translations, ph, t.p);
      translations := OrInsert(translations, oh, t.o);
      ids := CompressedTriple(sh, ph, oh);
    }

    /** `compress_parsed_rdf_triple`: the same on the terms' N-Triples texts. */
    method CompressParsedTriple(t: ParsedTriple) returns (ids: CompressedTriple)
      requires Valid()
      modifies this`translations
      ensures Valid()
      ensures ids == TermIds(TextOf(t), hashTerm)
      ensures translations == Intern(old(translations), TextOf(t), hashTerm)
    {
      var s, p, o := t.subject.text, t.pred.text, t.obj.text;
      var sh, ph, oh := hashTerm(s), hashTerm(p), hashTerm(o);
      translations := OrInsert(translations, sh, s);
      translations := OrInsert(translations, ph, p);
      translations := OrInsert(translations, oh, o);
      ids := CompressedTriple(sh, ph, oh);
    }

    /** Hands one compressed triple to the writer, through the deduplicator when `dedupOn`. */
    method Emit(ids: CompressedTriple, dedupOn: bool, emitted: seq<CompressedTriple>,
                ghost done: seq<CompressedTriple>, ghost seen0: set<TripleId>)
      returns (emitted': seq<CompressedTriple>)
      requires emitted == Emitted(done, seen0, hashTriple, dedupOn)
      requires dedup == SeenAfter(done, seen0, hashTriple, dedupOn)
      modifies this`dedup
      ensures emitted' == Emitted(done + [ids], seen0, hashTriple, dedupOn)
      ensures dedup == SeenAfter(done + [ids], seen0, hashTriple, dedupOn)
    {
      assert (done + [ids])[..|done|] == done;
      if !dedupOn {
        emitted' := emitted + [ids];
      } else {
        var isNew := FoundNewTriple(ids);
        emitted' := if isNew then emitted + [ids] else emitted;
      }
    }

    /**
     * The state after the reader has handed over the triples `acc`, starting
     * from the dictionary `t0` and the deduplicator `d0`.
     */
    ghost predicate Compressed(acc: seq<RawTriple>, emitted: seq<CompressedTriple>, t0: seq<Entry<Bytes>>,
                               d0: set<TripleId>, dedupOn: bool)
      reads this
    {
      && Valid() && StrictlySorted(t0)
      && translations == InternAll(t0, acc, hashTerm)
      && emitted == Emitted(IdsOf(acc, hashTerm), d0, hashTriple, dedupOn)
      && dedup == SeenAfter(IdsOf(acc, hashTerm), d0, hashTriple, dedupOn)
    }

    /** The raw reader on one accepted line: compress the triple and hand it over. */
    method CompressRawStep(t: RawTriple, dedupOn: bool, emitted: seq<CompressedTriple>, ghost acc: seq<RawTriple>,
                           ghost t0: seq<Entry<Bytes>>, ghost d0: set<TripleId>)
      returns (emitted': seq<CompressedTriple>)
      requires Compressed(acc, emitted, t0, d0, dedupOn)
      modifies this`translations, this`dedup
      ensures Compressed(acc + [t], emitted', t0, d0, dedupOn)
    {
      var ids := CompressRawTriple(t);
      AppendOne(t0, acc, t, hashTerm);
      emitted' := Emit(ids, dedupOn, emitted, IdsOf(acc, hashTerm), d0);
    }

    /** The parsed reader on one kept triple: compress it and hand it over. */
    method CompressKept(t: ParsedTriple, dedupOn: bool, emitted: seq<CompressedTriple>, ghost acc: seq<RawTriple>,
                        ghost t0: seq<Entry<Bytes>>, ghost d0: set<TripleId>)
      returns (emitted': seq<CompressedTriple>)
      requires Compressed(acc, emitted, t0, d0, dedupOn)
      modifies this`translations, this`dedup
      ensures Compressed(acc + [TextOf(t)], emitted', t0, d0, dedupOn)
    {
      var ids := CompressParsedTriple(t);
      AppendOne(t0, acc, TextOf(t), hashTerm);
      emitted' := Emit(ids, dedupOn, emitted, IdsOf(acc, hashTerm), d0);
    }

    /** The parsed reader on one parser step: a kept triple is compressed and handed over, anything else passed over. */
    method CompressParsedStep(steps: seq<ParseStep>, i: nat, dedupOn: bool, emitted: seq<CompressedTriple>,
                              ghost acc: seq<RawTriple>, ghost t0: seq<Entry<Bytes>>, ghost d0: set<TripleId>)
      returns (emitted': seq<CompressedTriple>, ghost acc': seq<RawTriple>)
      requires i < |steps| && AcceptParsed(steps[..i]) == acc
      requires Compressed(acc, emitted, t0, d0, dedupOn)
      modifies this`translations, this`dedup
      ensures AcceptParsed(steps[..i + 1]) == acc'
      ensures Compressed(acc', emitted', t0, d0, dedupOn)
    {
      AcceptParsedStep(steps, i);
      if steps[i].Parsed? && Kept(steps[i].triple) {
        var t := steps[i].triple;
        emitted' := CompressKept(t, dedupOn, emitted, acc, t0, d0);
        acc' := acc + [TextOf(t)];
      } else {
        emitted', acc' := emitted, acc;
        assert acc + [] == acc;
      }
    }

    /**
     * The reader loop of `compress_raw_rdf_triple_file`: the compressed
     * triples handed to the writer, up to the first bad line, and that line's
     * fault, if any.
     */
    method CompressRawTripleFile(input: Bytes, dedupOn: bool)
      returns (emitted: seq<CompressedTriple>, fault: Option<LineFault>)
      requires Valid()
      modifies this`translations, this`dedup
      ensures Valid()
      ensures fault.Some? <==> AcceptRaw(Lines(input)).Err?
      ensures fault.Some? ==> fault.value == AcceptRaw(Lines(input)).error
      ensures fault.None? ==> AcceptedBefore(Lines(input)) == AcceptRaw(Lines(input)).value
      ensures var ts := AcceptedBefore(Lines(input));
        && translations == InternAll(old(translations), ts, hashTerm)
        && emitted == Emitted(IdsOf(ts, hashTerm), old(dedup), hashTriple, dedupOn)
        && dedup == SeenAfter(IdsOf(ts, hashTerm), old(dedup), hashTriple, dedupOn)
    {
      var lines := Lines(input);
      emitted := [];
      ghost var acc: seq<RawTriple> := [];
      var i := 0;
      while i < |lines|
        invariant 0 <= i <= |lines|
        invariant AcceptRaw(lines[..i]) == Ok(acc)
        invariant Compressed(acc, emitted, old(translations), old(dedup), dedupOn)
      {
        AcceptRawStep(lines, i, acc);
        match SplitLine(lines[i]) {
          case Skip =>
          case Fault(f) =>
            AcceptedBeforeFault(lines, i, acc);
            return emitted, Some(f);
          case Accept(t) =>
            emitted := CompressRawStep(t, dedupOn, emitted, acc, old(translations), old(dedup));
            acc := acc + [t];
        }
        i := i + 1;
      }
      assert lines[..i] == lines;
      AcceptedBeforeOk(lines);
      fault := None;
    }

    /** The reader loop of `compress_parsed_rdf_triple_file`: syntax errors are passed over. */
    method CompressParsedTripleFile(steps: seq<ParseStep>, dedupOn: bool) returns (emitted: seq<CompressedTriple>)
      requires Valid()
      modifies this`translations, this`dedup
      ensures Valid()
      ensures translations == InternAll(old(translations), AcceptParsed(steps), hashTerm)
      ensures emitted == Emitted(IdsOf(AcceptParsed(steps), hashTerm), old(dedup), hashTriple, dedupOn)
      ensures dedup == SeenAfter(IdsOf(AcceptParsed(steps), hashTerm), old(dedup), hashTriple, dedupOn)
    {
      emitted := [];
      ghost var acc: seq<RawTriple> := [];
      var i := 0;
      while i < |steps|
        invariant 0 <= i <= |steps|
        invariant AcceptParsed(steps[..i]) == acc
        invariant Compressed(acc, emitted, old(translations), old(dedup), dedupOn)
      {
        emitted, acc := CompressParsedStep(steps, i, dedupOn, emitted, acc, old(translations), old(dedup));
        i := i + 1;
      }
      assert steps[..i] == steps;
    }

    /**
     * `compress_rdf_triple_file`: the output goes to the input's name with
     * the compressed extension, must not exist yet, and receives the triples
     * that the parsed reader (on `steps`, what the N-Triples parser yields)
     * or the raw reader (on `input`) hands over. When the raw reader panics,
     * the output file is left holding the triples sent before the bad line.
     */
    method CompressRdfTripleFile(name: Bytes, input: Bytes, steps: seq<ParseStep>, dedupOn: bool, parse: bool,
                                 outputExists: bool)
      returns (outName: Bytes, r: Result<Bytes, CompressError>)
      requires Valid()
      modifies this`translations, this`dedup
      ensures Valid()
      ensures outName == WithExtension(name, COMPRESSED_TRIPLE_FILE_EXTENSION)
      ensures outputExists ==> r == Err(OutputExists) && translations == old(translations) && dedup == old(dedup)
      ensures !outputExists && parse ==>
        var ts := AcceptParsed(steps);
        && translations == InternAll(old(translations), ts, hashTerm)
        && r.Ok? && LoadTriples(r.value) == Some(Emitted(IdsOf(ts, hashTerm), old(dedup), hashTriple, dedupOn))
      ensures !outputExists && !parse ==>
        var ts := AcceptedBefore(Lines(input));
        var sent := Emitted(IdsOf(ts, hashTerm), old(dedup), hashTriple, dedupOn);
        && translations == InternAll(old(translations), ts, hashTerm)
        && (r.Err? <==> AcceptRaw(Lines(input)).Err?)
        && (r.Err? ==> r.error.ReaderPanic? && r.error.fault == AcceptRaw(Lines(input)).error
                       && LoadTriples(r.error.partial) == Some(sent))
        && (r.Ok? ==> ts == AcceptRaw(Lines(input)).value && LoadTriples(r.value) == Some(sent))
    {
      outName := WithExtension(name, COMPRESSED_TRIPLE_FILE_EXTENSION);
      if outputExists {
        return outName, Err(OutputExists);
      }
      var emitted;
      if parse {
        emitted := CompressParsedTripleFile(steps, dedupOn);
      } else {
        var fault;
        emitted, fault := CompressRawTripleFile(input, dedupOn);
        if fault.Some? {
          // The writer still receives, and flushes, every triple sent before the panic.
          var partial := WriteTriples(emitted);
          return outName, Err(ReaderPanic(fault.value, partial));
        }
      }
      var file := WriteTriples(emitted);
      r := Ok(file);
    }

    /** `save_state`: the header size, the header records, then the term texts, all in ascending id order. */
    method SaveState() returns (file: Bytes)
      ensures file == StateFile(translations)
    {
      var es := translations;
      assert RECORD_SIZE == 24;
      var headerSize := |es| * RECORD_SIZE;
      var header: Bytes := [];
      var offset := 0;
      var i := 0;
      while i < |es|
        invariant 0 <= i <= |es|
        invariant offset == |DataSegment(es[..i])|
        invariant header == HeaderText(es[..i])
      {
        HeaderTextStep(es, i);
        header := header + Word(es[i].key) + Word(offset);
        offset := offset + |es[i].value|;
        header := header + Word(offset);
        i := i + 1;
      }
      assert es[..i] == es;
      var data: Bytes := [];
      i := 0;
      while i < |es|
        invariant 0 <= i <= |es|
        invariant data == DataSegment(es[..i])
      {
        DataSegmentStep(es, i);
        data := data + es[i].value;
        i := i + 1;
      }
      assert es[..i] == es;
      file := Word(headerSize) + header + data;
    }
  }
}
