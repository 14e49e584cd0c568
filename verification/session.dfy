/** The measurement session (`main`): each pass of the loop takes one answer
    from the voltage prompt. A voltage is followed by one read of the serial
    reader, and a successful read stores one comparison record; the keyword
    ends the session and asks for the records to be exported when there are
    any. */
module Session {
  import opened Wrappers
  import opened VoltageEntry

  /** One stored comparison: when it was taken, the operator's voltage, the
      reader's voltage, and reader minus operator. */
  datatype Record = Record(timestamp: string, measured: real, serial: real, difference: real)

  /** What the serial reader handed back. `NoResult` is a falsy result (`None`);
      `Returned(value, success)` is the pair `(serial_voltage, success_flag)`,
      whose value may itself be missing. */
  datatype ReadOutcome = NoResult | Returned(value: Option<real>, success: bool)

  datatype Phase = Prompting | Terminated

  /** The loop's state: whether it is still prompting, the records stored so
      far in insertion order, and whether export of the store was requested. */
  datatype Session = Session(phase: Phase, store: seq<Record>, exported: bool)

  /** One pass of the loop: the prompt's answer, together with the reader's
      outcome and the wall-clock reading that apply if it is a voltage. */
  datatype Turn = Turn(answer: Answer, read: ReadOutcome, clock: string)

  /** The session before the first answer: prompting, nothing stored. */
  const Start: Session := Session(Prompting, [], false)

  /** A stored record is consistent: its difference is serial minus measured,
      and its measured voltage is one the prompt accepts. */
  predicate Sound(r: Record)
  {
    && r.difference == r.serial - r.measured
    && MinVolts <= r.measured <= MaxVolts
  }

  predicate AllSound(rs: seq<Record>)
  {
    forall i :: 0 <= i < |rs| ==> Sound(rs[i])
  }

  /** The session invariant: every record is consistent, and export has been
      requested exactly when the session is over and something was stored. */
  predicate Valid(s: Session)
  {
    && AllSound(s.store)
    && (s.exported <==> s.phase == Terminated && |s.store| > 0)
  }

  /** The reader succeeded with a value. A `(None, True)` pair does not count:
      subtracting from `None` raises `TypeError`, which the loop's catch-all
      turns into a skipped pass. */
  predicate Succeeded(read: ReadOutcome)
  {
    read.Returned? && read.success && read.value.Some?
  }

  /** The record one pass stores for an accepted voltage `measured`, if the
      read succeeded. */
  function Measurement(measured: real, read: ReadOutcome, clock: string): (r: Option<Record>)
    ensures r.Some? <==> Succeeded(read)
    ensures r.Some? ==> r.value.timestamp == clock && r.value.measured == measured
    ensures r.Some? ==> r.value.serial == read.value.value
    ensures r.Some? ==> r.value.difference == r.value.serial - r.value.measured
  {
    if Succeeded(read) then
      var serial := read.value.value;
      Some(Record(clock, measured, serial, serial - measured))
    else None
  }

  /** One pass of the loop. The keyword ends the session, requesting export
      if anything is stored; a voltage stores one record if and only if the
      read succeeds. Once over, the session ignores further answers. */
  function Step(s: Session, t: Turn): (s': Session)
    ensures s.phase == Terminated ==> s' == s
    ensures s.store <= s'.store && |s'.store| <= |s.store| + 1
    ensures |s'.store| == |s.store| + 1 <==>
      s.phase == Prompting && t.answer.Voltage? && Succeeded(t.read)
    ensures |s'.store| == |s.store| + 1 ==>
      s'.store[|s.store|].measured == t.answer.volts &&
      s'.store[|s.store|].serial == t.read.value.value
    ensures s'.phase == Terminated <==> s.phase == Terminated || t.answer.End?
    ensures s.phase == Prompting && t.answer.End? ==> (s'.exported <==> |s.store| > 0)
    ensures Valid(s) ==> Valid(s')
  {
    if s.phase == Terminated then s
    else if t.answer.End? then Session(Terminated, s.store, |s.store| > 0)
    else
      assert s.phase == Prompting && t.answer.Voltage?;
      var stored := Measurement(t.answer.volts, t.read, t.clock);
      if stored.Some? then s.(store := s.store + [stored.value]) else s
  }

  /** The session after a sequence of answers. The store only grows, the
      invariant is kept, and a finished session stays as it is. */
  function Run(s: Session, turns: seq<Turn>): (r: Session)
    ensures s.store <= r.store
    ensures Valid(s) ==> Valid(r)
    ensures s.phase == Terminated ==> r == s
    decreases |turns|
  {
    if |turns| == 0 then s else Run(Step(s, turns[0]), turns[1..])
  }

  /** The answers before the first keyword: the ones the session acts on. */
  function UntilEnd(turns: seq<Turn>): (r: seq<Turn>)
    ensures r <= turns
    ensures forall i :: 0 <= i < |r| ==> r[i].answer.Voltage?
    ensures |r| < |turns| ==> turns[|r|].answer.End?
  {
    if |turns| == 0 || turns[0].answer.End? then []
    else [turns[0]] + UntilEnd(turns[1..])
  }

  /** The records one answer contributes: the measurement of a voltage
      whose read succeeded, and nothing otherwise. */
  function Yield(t: Turn): (r: seq<Record>)
    ensures |r| <= 1
    ensures |r| == 1 <==> t.answer.Voltage? && Succeeded(t.read)
    ensures AllSound(r)
  {
    if t.answer.End? then []
    else match Measurement(t.answer.volts, t.read, t.clock)
      case Some(rec) => [rec]
      case None => []
  }

  /** Reference definition of what gets stored: the records of the voltages
      whose reads succeeded, in the order they were entered. */
  function Harvest(turns: seq<Turn>): (r: seq<Record>)
    ensures |r| <= |turns|
    ensures AllSound(r)
  {
    if |turns| == 0 then [] else Yield(turns[0]) + Harvest(turns[1..])
  }

  /** Running two sequences of answers one after the other is running their
      concatenation. */
  lemma {:induction false} RunAppend(s: Session, a: seq<Turn>, b: seq<Turn>)
    ensures Run(s, a + b) == Run(Run(s, a), b)
    decreases |a|
  {
    if |a| == 0 {
      assert a + b == b;
    } else {
      assert (a + b)[0] == a[0];
      assert (a + b)[1..] == a[1..] + b;
      RunAppend(Step(s, a[0]), a[1..], b);
    }
  }

  /** While the session is prompting, the store grows by exactly the records
      of the voltages before the keyword whose reads succeeded. */
  lemma {:induction false} RunCollects(s: Session, turns: seq<Turn>)
    requires s.phase == Prompting
    ensures Run(s, turns).store == s.store + Harvest(UntilEnd(turns))
    decreases |turns|
  {
    if |turns| == 0 {
      assert UntilEnd(turns) == [];
    } else {
      var t := turns[0];
      var s' := Step(s, t);
      if t.answer.End? {
        assert UntilEnd(turns) == [];
      } else {
        var u := UntilEnd(turns);
        assert u == [t] + UntilEnd(turns[1..]);
        assert Harvest(u) == Yield(t) + Harvest(UntilEnd(turns[1..])) by {
          assert u[0] == t && u[1..] == UntilEnd(turns[1..]);
        }
        assert s'.store == s.store + Yield(t);
        RunCollects(s', turns[1..]);
      }
    }
  }

  /** The session is over after a sequence of answers exactly when one of
      them is the keyword. */
  lemma {:induction false} RunTerminates(s: Session, turns: seq<Turn>)
    requires s.phase == Prompting
    ensures Run(s, turns).phase == Terminated <==>
      exists i :: 0 <= i < |turns| && turns[i].answer.End?
    decreases |turns|
  {
    if |turns| > 0 {
      var s' := Step(s, turns[0]);
      if s'.phase == Prompting {
        RunTerminates(s', turns[1..]);
        assert forall i :: 1 <= i < |turns| ==> turns[i] == turns[1..][i - 1];
      }
    }
  }

  /** Answers after the keyword have no effect: the loop has already left. */
  lemma AnswersAfterEndIgnored(turns: seq<Turn>, i: nat)
    requires i < |turns| && turns[i].answer.End?
    ensures Run(Start, turns) == Run(Start, turns[..i + 1])
  {
    assert turns == turns[..i + 1] + turns[i + 1..];
    RunAppend(Start, turns[..i + 1], turns[i + 1..]);
    RunTerminates(Start, turns[..i + 1]);
    assert turns[..i + 1][i] == turns[i];
  }

  /** A whole session from the start: it ends exactly when the keyword is
      entered; its store is the reference harvest of the answers before the
      keyword; and export is requested exactly when the session ended with a
      non-empty store. */
  lemma SessionOutcome(turns: seq<Turn>)
    ensures Run(Start, turns).phase == Terminated <==>
      exists i :: 0 <= i < |turns| && turns[i].answer.End?
    ensures Run(Start, turns).store == Harvest(UntilEnd(turns))
    ensures Run(Start, turns).exported <==>
      Run(Start, turns).phase == Terminated && |Harvest(UntilEnd(turns))| > 0
    ensures AllSound(Run(Start, turns).store)
  {
    RunTerminates(Start, turns);
    RunCollects(Start, turns);
    assert Valid(Start);
  }

  /** `main`'s `while True` loop over the prompt's answers: each is stepped in
      order, and the loop stops at the keyword. The result is the session the
      whole sequence leads to, and it is valid. */
  method Drive(turns: seq<Turn>) returns (s: Session, consumed: nat)
    ensures s == Run(Start, turns)
    ensures consumed <= |turns|
    ensures s.phase == Terminated ==> consumed > 0 && turns[consumed - 1].answer.End?
    ensures s.phase == Terminated ==> consumed == |UntilEnd(turns)| + 1
    ensures s.phase == Prompting ==> consumed == |turns| && UntilEnd(turns) == turns
    ensures Valid(s)
  {
    s := Start;
    consumed := 0;
    assert Valid(s);
    while consumed < |turns| && s.phase == Prompting
      invariant consumed <= |turns|
      invariant Valid(s)
      invariant Run(s, turns[consumed..]) == Run(Start, turns)
      invariant s.phase == Terminated ==> consumed > 0 && turns[consumed - 1].answer.End?
      invariant forall j :: 0 <= j < consumed && (j < consumed - 1 || s.phase == Prompting) ==>
        turns[j].answer.Voltage?
    {
      var t := turns[consumed];
      assert turns[consumed..] == [t] + turns[consumed + 1..];
      s := Step(s, t);
      consumed := consumed + 1;
    }
    FirstKeyword(turns, if s.phase == Terminated then consumed - 1 else consumed);
  }

  /** The answers before the keyword are exactly the voltages up to the first
      keyword, or all of them when there is none. */
  lemma {:induction false} FirstKeyword(turns: seq<Turn>, m: nat)
    requires m <= |turns|
    requires forall j :: 0 <= j < m ==> turns[j].answer.Voltage?
    requires m < |turns| ==> turns[m].answer.End?
    ensures UntilEnd(turns) == turns[..m]
    decreases m
  {
    if m > 0 {
      FirstKeyword(turns[1..], m - 1);
      assert turns[..m] == [turns[0]] + turns[1..][..m - 1];
    }
  }
}
