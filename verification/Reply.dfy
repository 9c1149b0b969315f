/** Error handling of replies, src/protocol/reply.rs: warnings, errors, and results of batches. */
module Reply {
  import opened Wrappers

  datatype Severity = Warning | Error | Fatal

  datatype ServerError = ServerError(code: int, severity: Severity, text: string)

  datatype ExecutionResult =
    | RowsAffected(count: nat)
    | SuccessNoInfo
    | Failure(error: Option<ServerError>)

  datatype Part =
    | ErrorPart(errors: seq<ServerError>)
    | StatementContext(sequenceInfo: Option<int>)
    | TransactionFlags(sessionClosing: Option<bool>)
    | ExecutionResults(results: seq<ExecutionResult>)
    | OtherPart

  datatype Outcome =
    | NoError
    | DbError(error: ServerError)
    | MixedResults(results: seq<ExecutionResult>)
    | SessionClosingTransactionError
    | Unreachable                              // the code panics

  // ---- Mixing errors into results ----

  function Failures(results: seq<ExecutionResult>): nat {
    if results == [] then 0
    else Failures(results[..|results| - 1]) + if results[|results| - 1].Failure? then 1 else 0
  }

  /** The errors that results carry, in order. */
  function ErrorsIn(results: seq<ExecutionResult>): seq<ServerError> {
    if results == [] then []
    else
      var last := results[|results| - 1];
      ErrorsIn(results[..|results| - 1]) + if last.Failure? && last.error.Some? then [last.error.value] else []
  }

  function Nth(errors: seq<ServerError>, n: nat): Option<ServerError> {
    if n < |errors| then Some(errors[n]) else None
  }

  /** What becomes of a result: the k-th failure gets the k-th error, everything else stays. */
  function Slot(results: seq<ExecutionResult>, errors: seq<ServerError>, i: nat): ExecutionResult
    requires i < |results|
  {
    if results[i].Failure? then Failure(Nth(errors, Failures(results[..i]))) else results[i]
  }

  /** Every result keeps its place, and the errors beyond the last failure are appended in order. */
  ghost predicate Mixed(results: seq<ExecutionResult>, errors: seq<ServerError>, mixed: seq<ExecutionResult>) {
    var n, f := |results|, Failures(results);
    && |mixed| == n + (if f < |errors| then |errors| - f else 0)
    && (forall i :: 0 <= i < n ==> mixed[i] == Slot(results, errors, i))
    && (forall j :: n <= j < |mixed| ==> mixed[j] == Failure(Some(errors[f + j - n])))
  }

  /** The errors that come out are exactly the errors that went in, in their order. */
  method MixErrors(results: seq<ExecutionResult>, errors: seq<ServerError>) returns (mixed: seq<ExecutionResult>)
    ensures Mixed(results, errors, mixed)
    ensures ErrorsIn(mixed) == errors
    ensures |mixed| >= |results|
    ensures forall i :: 0 <= i < |results| ==>
              if results[i].Failure? then mixed[i].Failure? else mixed[i] == results[i]
    ensures forall i :: |results| <= i < |mixed| ==> mixed[i].Failure?
  {
    hide ErrorsIn;
    var next;
    mixed, next := FillFailures(results, errors);
    ghost var filled := mixed;
    for j := next to |errors|
      invariant |mixed| == |results| + (j - next)
      invariant mixed[..|results|] == filled
      invariant forall k :: |results| <= k < |mixed| ==> mixed[k] == Failure(Some(errors[next + k - |results|]))
      invariant ErrorsIn(mixed) == errors[..j]
    {
      PushResult(mixed, Failure(Some(errors[j])));
      mixed := mixed + [Failure(Some(errors[j]))];
    }
    assert errors[..|errors|] == errors;
    assert forall i :: 0 <= i < |results| ==> mixed[i] == filled[i];
  }

  /** The first pass; `next` is how far the errors were drawn. */
  method FillFailures(results: seq<ExecutionResult>, errors: seq<ServerError>) returns (filled: seq<ExecutionResult>, next: nat)
    ensures |filled| == |results| && forall i :: 0 <= i < |results| ==> filled[i] == Slot(results, errors, i)
    ensures next == (if Failures(results) < |errors| then Failures(results) else |errors|)
    ensures ErrorsIn(filled) == errors[..next]
  {
    hide ErrorsIn, Slot;
    FilledNothing();
    filled, next := [], 0;
    for i := 0 to |results|
      invariant |filled| == i && forall k :: 0 <= k < i ==> filled[k] == Slot(results, errors, k)
      invariant next == (if Failures(results[..i]) < |errors| then Failures(results[..i]) else |errors|)
      invariant ErrorsIn(filled) == errors[..next]
    {
      assert results[..i + 1][..i] == results[..i];
      var er := results[i];
      if er.Failure? {
        if next < |errors| {
          er := Failure(Some(errors[next]));
          next := next + 1;
        } else {
          er := Failure(None);
        }
      }
      PushResult(filled, er);
      SlotIs(results, errors, i, er);
      filled := filled + [er];
    }
    assert results[..|results|] == results;
  }

  lemma FilledNothing()
    ensures ErrorsIn([]) == []
  {
  }

  lemma SlotIs(results: seq<ExecutionResult>, errors: seq<ServerError>, i: nat, er: ExecutionResult)
    requires i < |results|
    requires er == if results[i].Failure? then Failure(Nth(errors, Failures(results[..i]))) else results[i]
    ensures Slot(results, errors, i) == er
  {
  }

  lemma PushResult(results: seq<ExecutionResult>, er: ExecutionResult)
    ensures ErrorsIn(results + [er]) == ErrorsIn(results) + if er.Failure? && er.error.Some? then [er.error.value] else []
  {
  }

  // ---- handle_db_error ----

  function Filter(errors: seq<ServerError>, warnings: bool): seq<ServerError> {
    if errors == [] then []
    else
      var last := errors[|errors| - 1];
      Filter(errors[..|errors| - 1], warnings) + if last.severity.Warning? == warnings then [last] else []
  }

  lemma FilterNothing()
    ensures Filter([], true) == [] && Filter([], false) == []
  {
  }

  ghost predicate AllWarnings(errors: seq<ServerError>) {
    forall i :: 0 <= i < |errors| ==> errors[i].severity == Warning
  }

  ghost predicate NoWarnings(errors: seq<ServerError>) {
    forall i :: 0 <= i < |errors| ==> errors[i].severity != Warning
  }

  /** `a` and `b` are subsequences of `c` that together make it up. */
  ghost predicate Interleaved<T>(a: seq<T>, b: seq<T>, c: seq<T>) {
    if c == [] then a == [] && b == []
    else
      var n := |c| - 1;
      || (a != [] && a[|a| - 1] == c[n] && Interleaved(a[..|a| - 1], b, c[..n]))
      || (b != [] && b[|b| - 1] == c[n] && Interleaved(a, b[..|b| - 1], c[..n]))
  }

  /** Warnings are the errors of severity `Warning`, in order; the others are all others, in order. */
  lemma {:induction false} FilterMeans(errors: seq<ServerError>)
    ensures AllWarnings(Filter(errors, true)) && NoWarnings(Filter(errors, false))
    ensures Interleaved(Filter(errors, true), Filter(errors, false), errors)
    ensures Filter(errors, false) == [] <==> AllWarnings(errors)
    ensures |Filter(errors, true)| + |Filter(errors, false)| == |errors|
  {
    if errors != [] {
      var n := |errors| - 1;
      var front, e := errors[..n], errors[n];
      FilterMeans(front);
      FilterLast(errors);
      hide Filter, Interleaved, AllWarnings, NoWarnings;
      var w, o := Filter(front, true), Filter(front, false);
      assert front + [e] == errors;
      AllWarningsPush(front, e);
      AllWarningsPush(w, e);
      NoWarningsPush(o, e);
      InterleavedPush(w, o, front, e);
    }
  }

  lemma FilterLast(errors: seq<ServerError>)
    requires errors != []
    ensures var front, e := errors[..|errors| - 1], errors[|errors| - 1];
            var w, o := Filter(front, true), Filter(front, false);
            && Filter(errors, true) == (if e.severity.Warning? then w + [e] else w)
            && Filter(errors, false) == (if e.severity.Warning? then o else o + [e])
  {
    var front := errors[..|errors| - 1];
    assert Filter(front, true) + [] == Filter(front, true) && Filter(front, false) + [] == Filter(front, false);
  }

  lemma NoWarningsPush(errors: seq<ServerError>, e: ServerError)
    ensures NoWarnings(errors + [e]) <==> NoWarnings(errors) && !e.severity.Warning?
  {
    var all := errors + [e];
    assert forall i :: 0 <= i < |errors| ==> all[i] == errors[i];
    assert all[|errors|] == e;
  }

  lemma AllWarningsPush(errors: seq<ServerError>, e: ServerError)
    ensures AllWarnings(errors + [e]) <==> AllWarnings(errors) && e.severity.Warning?
  {
    var all := errors + [e];
    assert forall i :: 0 <= i < |errors| ==> all[i] == errors[i];
    assert all[|errors|] == e;
  }

  lemma InterleavedPush<T>(a: seq<T>, b: seq<T>, c: seq<T>, x: T)
    requires Interleaved(a, b, c)
    ensures Interleaved(a + [x], b, c + [x]) && Interleaved(a, b + [x], c + [x])
  {
    assert (a + [x])[..|a|] == a && (b + [x])[..|b|] == b && (c + [x])[..|c|] == c;
  }

  /** Index of the first error part, or the number of parts. */
  function FirstError(parts: seq<Part>): (i: nat)
    ensures i <= |parts|
    ensures i < |parts| ==> parts[i].ErrorPart?
    ensures forall k :: 0 <= k < i ==> !parts[k].ErrorPart?
  {
    if parts == [] then 0
    else if parts[0].ErrorPart? then 0
    else 1 + FirstError(parts[1..])
  }

  /** Does a transaction flag among the parts tell that the session is closing, given what was known before? */
  function Aborts(parts: seq<Part>, dead: bool): bool {
    if parts == [] then false
    else
      match parts[0]
      case TransactionFlags(closing) =>
        var d := if closing.Some? then closing.value else dead;
        d || Aborts(parts[1..], d)
      case _ => Aborts(parts[1..], dead)
  }

  /** The session state and the statement sequence after the parts were evaluated. */
  function DeadAfter(parts: seq<Part>, dead: bool): bool {
    if parts == [] then dead
    else
      var last := parts[|parts| - 1];
      if last.TransactionFlags? && last.sessionClosing.Some? then last.sessionClosing.value
      else DeadAfter(parts[..|parts| - 1], dead)
  }

  function SequenceAfter(parts: seq<Part>, info: Option<int>): Option<int> {
    if parts == [] then info
    else if parts[|parts| - 1].StatementContext? then parts[|parts| - 1].sequenceInfo
    else SequenceAfter(parts[..|parts| - 1], info)
  }

  /** What the last transaction flags say, if any say something. */
  lemma {:induction false} DeadAfterMeans(parts: seq<Part>, dead: bool)
    ensures forall n :: 0 <= n < |parts| && parts[n].TransactionFlags? && parts[n].sessionClosing.Some?
                        && (forall m :: n < m < |parts| ==> !(parts[m].TransactionFlags? && parts[m].sessionClosing.Some?)) ==>
              DeadAfter(parts, dead) == parts[n].sessionClosing.value
    ensures (forall m :: 0 <= m < |parts| ==> !(parts[m].TransactionFlags? && parts[m].sessionClosing.Some?)) ==>
              DeadAfter(parts, dead) == dead
  {
    if parts != [] {
      var front := parts[..|parts| - 1];
      DeadAfterMeans(front, dead);
      assert forall m :: 0 <= m < |front| ==> front[m] == parts[m];
    }
  }

  /** What the last statement context says. */
  lemma {:induction false} SequenceAfterMeans(parts: seq<Part>, info: Option<int>)
    ensures forall n :: 0 <= n < |parts| && parts[n].StatementContext?
                        && (forall m :: n < m < |parts| ==> !parts[m].StatementContext?) ==>
              SequenceAfter(parts, info) == parts[n].sequenceInfo
    ensures (forall m :: 0 <= m < |parts| ==> !parts[m].StatementContext?) ==> SequenceAfter(parts, info) == info
  {
    if parts != [] {
      var front := parts[..|parts| - 1];
      SequenceAfterMeans(front, info);
      assert forall m :: 0 <= m < |front| ==> front[m] == parts[m];
    }
  }

  /** Part `n` is a transaction flag after which the session is known to be closing. */
  ghost predicate AbortsAt(parts: seq<Part>, dead: bool, n: nat) {
    n < |parts| && parts[n].TransactionFlags? && DeadAfter(parts[..n + 1], dead)
  }

  lemma AbortsAtFirst(parts: seq<Part>, dead: bool)
    requires parts != []
    ensures DeadAfter(parts[..1], dead) == DeadAfter([parts[0]], dead)
    ensures AbortsAt(parts, dead, 0) <==> parts[0].TransactionFlags? && DeadAfter([parts[0]], dead)
  {
    assert parts[..1] == [parts[0]];
  }

  lemma AbortsAtNext(parts: seq<Part>, dead: bool, n: nat)
    requires parts != []
    ensures AbortsAt(parts, dead, n + 1) <==> AbortsAt(parts[1..], DeadAfter([parts[0]], dead), n)
  {
    if n + 1 < |parts| {
      assert parts[..n + 2] == [parts[0]] + parts[1..][..n + 1];
      DeadAfterFirst(parts[0], parts[1..][..n + 1], dead);
    }
  }

  lemma DeadAfterOne(part: Part, dead: bool)
    ensures DeadAfter([part], dead) ==
            if part.TransactionFlags? && part.sessionClosing.Some? then part.sessionClosing.value else dead
  {
    assert [part][..0] == [];
  }

  /** The session aborts exactly if there is such a part. */
  lemma {:induction false} AbortsMeans(parts: seq<Part>, dead: bool)
    ensures Aborts(parts, dead) <==> exists n: nat :: AbortsAt(parts, dead, n)
  {
    if parts != [] {
      DeadAfterOne(parts[0], dead);
      var d := DeadAfter([parts[0]], dead);
      AbortsMeans(parts[1..], d);
      assert Aborts(parts, dead) <==> (parts[0].TransactionFlags? && d) || Aborts(parts[1..], d);
      AbortsAtFirst(parts, dead);
      hide Aborts, AbortsAt, DeadAfter;
      if n: nat :| AbortsAt(parts[1..], d, n) {
        AbortsAtNext(parts, dead, n);
      }
      if n: nat :| AbortsAt(parts, dead, n) {
        if n > 0 {
          AbortsAtNext(parts, dead, n - 1);
        }
      }
    }
  }

  lemma {:induction false} DeadAfterFirst(first: Part, parts: seq<Part>, dead: bool)
    ensures DeadAfter([first] + parts, dead) == DeadAfter(parts, DeadAfter([first], dead))
  {
    assert [first][..0] == [];
    if parts == [] {
      assert [first] + parts == [first];
    } else {
      var n := |parts| - 1;
      assert ([first] + parts)[..n + 1] == [first] + parts[..n];
      DeadAfterFirst(first, parts[..n], dead);
    }
  }

  /** The results that count: those of the last part that has any. */
  function LastResults(parts: seq<Part>): Option<seq<ExecutionResult>> {
    if parts == [] then None
    else if parts[|parts| - 1].ExecutionResults? then Some(parts[|parts| - 1].results)
    else LastResults(parts[..|parts| - 1])
  }

  lemma {:induction false} LastResultsMeans(parts: seq<Part>)
    ensures forall n :: 0 <= n < |parts| && parts[n].ExecutionResults?
                        && (forall m :: n < m < |parts| ==> !parts[m].ExecutionResults?) ==>
              LastResults(parts) == Some(parts[n].results)
    ensures LastResults(parts) == None <==> forall m :: 0 <= m < |parts| ==> !parts[m].ExecutionResults?
  {
    if parts != [] {
      var front := parts[..|parts| - 1];
      LastResultsMeans(front);
      assert forall m :: 0 <= m < |front| ==> front[m] == parts[m];
    }
  }

  function Others(parts: seq<Part>): (others: seq<Part>)
    ensures (forall k :: 0 <= k < |parts| ==> !parts[k].ErrorPart?) ==> others == parts
    ensures forall i :: 0 <= i < |parts| && parts[i].ErrorPart? && (forall k :: 0 <= k < i ==> !parts[k].ErrorPart?) ==>
              others == parts[..i] + parts[i + 1..]
  {
    var i := FirstError(parts);
    if i == |parts| then parts else parts[..i] + parts[i + 1..]
  }

  class ConnectionCore {
    var warnings: seq<ServerError>
    var statementSequence: Option<int>
    var dead: bool

    /** All warnings of the reply go to the connection, in order, and all errors into the outcome. */
    method HandleDbError(parts: seq<Part>) returns (r: Outcome, left: seq<Part>)
      modifies this
      ensures var i := FirstError(parts);
              var all := if i < |parts| then parts[i].errors else [];
              var errors := Filter(all, false);
              && warnings == Filter(all, true)
              && AllWarnings(warnings) && NoWarnings(errors) && Interleaved(warnings, errors, all)
              && (r == NoError <==> AllWarnings(all))
              && (errors == [] ==>
                    r == NoError && left == Others(parts) && dead == old(dead) && statementSequence == old(statementSequence))
              && (errors != [] ==>
                    var rest := Others(parts);
                    && (r == SessionClosingTransactionError <==> Aborts(rest, old(dead)))
                    && (!Aborts(rest, old(dead)) ==>
                          && left == []
                          && dead == DeadAfter(rest, old(dead))
                          && statementSequence == SequenceAfter(rest, old(statementSequence))
                          && match LastResults(rest)
                          case Some(results) => r.MixedResults? && Mixed(results, errors, r.results) && ErrorsIn(r.results) == errors
                          case None => r == if |errors| == 1 then DbError(errors[0]) else Unreachable))
    {
      hide Filter, Mixed, ErrorsIn, Aborts, LastResults, DeadAfter, SequenceAfter, AllWarnings, NoWarnings, Interleaved;
      FilterNothing();
      FilterMeans([]);
      warnings := [];
      var i := FirstError(parts);
      if i == |parts| {
        return NoError, parts;
      }
      var serverErrors: seq<ServerError>;
      FilterMeans(parts[i].errors);
      warnings, serverErrors := Partition(parts[i].errors);
      var rest := parts[..i] + parts[i + 1..];
      if serverErrors == [] {
        return NoError, rest;
      }
      var aborted, executionResults;
      aborted, executionResults, left := EvaluateParts(rest);
      if aborted {
        return SessionClosingTransactionError, left;
      }
      if executionResults.Some? {
        var mixed := MixErrors(executionResults.value, serverErrors);
        r := MixedResults(mixed);
      } else if |serverErrors| == 1 {
        r := DbError(serverErrors[0]);
      } else {
        r := Unreachable;
      }
    }

    /** The loop over the parts that can come with an error part. */
    method EvaluateParts(parts: seq<Part>)
      returns (aborted: bool, executionResults: Option<seq<ExecutionResult>>, left: seq<Part>)
      modifies this
      ensures warnings == old(warnings)
      ensures aborted == Aborts(parts, old(dead))
      ensures !aborted ==>
                && executionResults == LastResults(parts) && left == []
                && dead == DeadAfter(parts, old(dead))
                && statementSequence == SequenceAfter(parts, old(statementSequence))
    {
      executionResults := None;
      for n := 0 to |parts|
        invariant warnings == old(warnings)
        invariant executionResults == LastResults(parts[..n])
        invariant Aborts(parts, old(dead)) == Aborts(parts[n..], dead)
        invariant dead == DeadAfter(parts[..n], old(dead))
        invariant statementSequence == SequenceAfter(parts[..n], old(statementSequence))
      {
        assert parts[..n + 1][..n] == parts[..n] && parts[n..][1..] == parts[n + 1..];
        match parts[n] {
          case StatementContext(info) =>
            statementSequence := info;
          case TransactionFlags(closing) =>
            if closing.Some? {
              dead := closing.value;
            }
            if dead {
              return true, executionResults, parts[n + 1..];
            }
          case ExecutionResults(results) =>
            executionResults := Some(results);
          case _ =>
        }
      }
      assert parts[..|parts|] == parts;
      return false, executionResults, [];
    }
  }

  /** `partition` of the standard library. */
  method Partition(errors: seq<ServerError>) returns (warnings: seq<ServerError>, others: seq<ServerError>)
    ensures warnings == Filter(errors, true) && others == Filter(errors, false)
    ensures AllWarnings(warnings) && NoWarnings(others) && Interleaved(warnings, others, errors)
    ensures |warnings| + |others| == |errors|
  {
    FilterMeans(errors);
    hide AllWarnings, NoWarnings, Interleaved;
    warnings, others := [], [];
    for i := 0 to |errors|
      invariant warnings == Filter(errors[..i], true) && others == Filter(errors[..i], false)
      invariant |warnings| + |others| == i
    {
      assert errors[..i + 1][..i] == errors[..i];
      if errors[i].severity.Warning? {
        warnings := warnings + [errors[i]];
      } else {
        others := others + [errors[i]];
      }
    }
    assert errors[..|errors|] == errors;
  }
}
