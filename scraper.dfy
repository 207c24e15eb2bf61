/** The module-level accumulator `data`/`transcripts` (main.py:44-45) and the
    outer loop of `scrap()` over the page's tables (main.py:81-84, 137-141). */
module Scraper {
  import opened Rows
  import opened Assembler

  /** What one call of `scrap()` contributes: the transcripts appended to the
      global list, in table order, and the exception that ended the call, if
      any. Tables after a failing one are never read. */
  datatype Outcome = Outcome(appended: seq<Transcript>, failure: Option<AssemblyError>)

  /** The outcome of assembling `tables`, the first of them having page index
      `first`. */
  function RunFrom(first: nat, tables: seq<Table>): (o: Outcome)
    decreases |tables|
  {
    if tables == [] then Outcome([], None)
    else match Assemble(first, tables[0])
      case Failure(e) => Outcome([], Some(e))
      case Success(t) =>
        var rest := RunFrom(first + 1, tables[1..]);
        Outcome([t] + rest.appended, rest.failure)
  }

  /** The outcome of one call of `scrap()` on a page whose tables are `tables`. */
  function Run(tables: seq<Table>): (o: Outcome)
  {
    RunFrom(0, tables)
  }

  /** `data`: the capture date and the list every call of `scrap()` appends to.
      The date is taken once, when the object is made; the clock is a parameter. */
  class Data {
    const date: string
    var transcripts: seq<Transcript>

    constructor (now: string)
      ensures date == now && transcripts == []
    {
      date := now;
      transcripts := [];
    }

    /** One call of `scrap()`. Transcripts of the tables before a failing one
        stay in the global list; the list is never reset. */
    method Scrap(tables: seq<Table>) returns (failure: Option<AssemblyError>)
      modifies this
      ensures transcripts == old(transcripts) + Run(tables).appended
      ensures failure == Run(tables).failure
    {
      ghost var added: seq<Transcript> := [];
      for i := 0 to |tables|
        invariant transcripts == old(transcripts) + added
        invariant Run(tables) ==
          var rest := RunFrom(i, tables[i..]);
          Outcome(added + rest.appended, rest.failure)
      {
        var r := AssembleTable(i, tables[i]);
        RunFromStep(i, tables);
        if r.Failure? {
          return Some(r.error);
        }
        ghost var rest := RunFrom(i + 1, tables[i + 1..]);
        assert (added + [r.value]) + rest.appended == added + ([r.value] + rest.appended);
        transcripts := transcripts + [r.value];
        added := added + [r.value];
      }
      assert tables[|tables|..] == [];
      return None;
    }
  }

  // ---- What a call appends ----

  /** Table i is assembled after the i before it. */
  lemma RunFromStep(i: nat, tables: seq<Table>)
    requires i < |tables|
    ensures var a := Assemble(i, tables[i]);
      RunFrom(i, tables[i..]) ==
        if a.Failure? then Outcome([], Some(a.error))
        else var rest := RunFrom(i + 1, tables[i + 1..]);
          Outcome([a.value] + rest.appended, rest.failure)
  {
    assert tables[i..][0] == tables[i] && tables[i..][1..] == tables[i + 1..];
  }

  /** A call appends at most one transcript per table, and one per table
      exactly when it does not fail. */
  lemma {:induction false} RunFromLength(first: nat, tables: seq<Table>)
    ensures var o := RunFrom(first, tables);
      |o.appended| <= |tables| && (o.failure == None <==> |o.appended| == |tables|)
    decreases |tables|
  {
    if tables != [] && Assemble(first, tables[0]).Success? {
      RunFromLength(first + 1, tables[1..]);
    }
  }

  /** The k-th appended transcript is table k's, with level k + 1 (`first` is 0
      for a whole call). */
  lemma {:induction false} RunFromAt(first: nat, tables: seq<Table>, k: nat)
    requires k < |RunFrom(first, tables).appended|
    ensures k < |tables|
    ensures Assemble(first + k, tables[k]) == Success(RunFrom(first, tables).appended[k])
    ensures RunFrom(first, tables).appended[k].level == first + k + 1
    decreases |tables|
  {
    var t := Assemble(first, tables[0]).value;
    var rest := RunFrom(first + 1, tables[1..]);
    assert RunFrom(first, tables).appended == [t] + rest.appended;
    if k > 0 {
      RunFromAt(first + 1, tables[1..], k - 1);
      assert tables[k] == tables[1..][k - 1];
    }
  }

  /** A call that fails on table k appends exactly the k transcripts before it,
      and the failure is table k's own. */
  lemma {:induction false} RunFromFailure(first: nat, tables: seq<Table>)
    requires RunFrom(first, tables).failure.Some?
    ensures var o := RunFrom(first, tables);
      |o.appended| < |tables| &&
      o.failure.value.table == first + |o.appended| &&
      Assemble(first + |o.appended|, tables[|o.appended|]) == Failure(o.failure.value)
    decreases |tables|
  {
    if Assemble(first, tables[0]).Success? {
      var rest := RunFrom(first + 1, tables[1..]);
      RunFromFailure(first + 1, tables[1..]);
      assert |RunFrom(first, tables).appended| == 1 + |rest.appended|;
      assert tables[1 + |rest.appended|] == tables[1..][|rest.appended|];
    }
  }

  lemma RunShape(tables: seq<Table>)
    ensures var o := Run(tables);
      |o.appended| <= |tables| &&
      (forall k :: 0 <= k < |o.appended| ==>
        Assemble(k, tables[k]) == Success(o.appended[k]) && o.appended[k].level == k + 1) &&
      (o.failure == None <==> |o.appended| == |tables|) &&
      (o.failure.Some? ==>
        |o.appended| < |tables| && o.failure.value.table == |o.appended| &&
        Assemble(|o.appended|, tables[|o.appended|]) == Failure(o.failure.value))
  {
    var o := Run(tables);
    RunFromLength(0, tables);
    forall k | 0 <= k < |o.appended|
      ensures Assemble(k, tables[k]) == Success(o.appended[k]) && o.appended[k].level == k + 1
    {
      RunFromAt(0, tables, k);
    }
    if o.failure.Some? {
      RunFromFailure(0, tables);
    }
  }

  /** A call that completes appends exactly one transcript per table, each the
      table's own; a call fails exactly when some table fails. */
  lemma {:induction false} RunSucceeds(tables: seq<Table>)
    ensures Run(tables).failure == None <==>
      forall k :: 0 <= k < |tables| ==> Assemble(k, tables[k]).Success?
  {
    RunShape(tables);
    var o := Run(tables);
    if o.failure.Some? {
      assert Assemble(|o.appended|, tables[|o.appended|]).Failure?;
    } else {
      forall k | 0 <= k < |tables| ensures Assemble(k, tables[k]).Success? {
        assert Assemble(k, tables[k]) == Success(o.appended[k]);
      }
    }
  }
}
