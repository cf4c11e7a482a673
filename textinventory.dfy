/**
 * The device list of the line-based variant (`lacodiga.py`): the main menu
 * keeps each created record text in a list, adds a service to a record by
 * editing its lines, and deletes a record after a numbered choice and a
 * confirmation.
 */
module TextInventory {
  import opened Wrappers
  import opened Text
  import opened Strings
  import opened Catalog
  import opened Validators
  import opened Rendering
  import opened ServiceLines
  import Classic
  import Inventory

  // ---------------------------------------------------------------------------
  // The delete dialogue
  // ---------------------------------------------------------------------------

  /** Where `eliminar_dispositivo` stands: asking for a number, or asking to confirm the device at `index`. */
  datatype DeletePhase = Choose | Confirm(index: nat)

  /** What one answer leads to: another question, removing the device at `index`, or leaving the list alone. */
  datatype DeleteStep = Go(phase: DeletePhase) | Remove(index: nat) | Cancel

  /**
   * An answer to the number question, for a list of `count` devices: "0"
   * cancels, a number from 1 to `count` asks for confirmation, anything
   * else asks again.
   */
  function ChooseAnswer(count: nat, answer: string): DeleteStep {
    var t := Strip(answer);
    if t == "0" then Cancel
    else
      match PyInt(t)
      case None => Go(Choose)
      case Some(n) => if 0 <= n - 1 < count then Go(Confirm(n - 1)) else Go(Choose)
  }

  /** An answer to the confirmation, upper-cased but not stripped: "S" removes, "N" cancels, anything else asks for the number again. */
  function ConfirmAnswer(index: nat, answer: string): DeleteStep {
    var c := Upper(answer);
    if c == "S" then Remove(index)
    else if c == "N" then Cancel
    else Go(Choose)
  }

  function DeleteStepOf(count: nat, phase: DeletePhase, answer: string): DeleteStep {
    match phase
    case Choose => ChooseAnswer(count, answer)
    case Confirm(i) => ConfirmAnswer(i, answer)
  }

  /** How a sequence of answers ends: a device removed, the list left alone, or still waiting for answers. */
  datatype DeleteRun = Removed(index: nat) | Cancelled | Pending

  function RunDelete(count: nat, phase: DeletePhase, answers: seq<string>): DeleteRun
    decreases |answers|
  {
    if answers == [] then Pending
    else
      match DeleteStepOf(count, phase, answers[0])
      case Remove(i) => Removed(i)
      case Cancel => Cancelled
      case Go(next) => RunDelete(count, next, answers[1..])
  }

  /** A device only comes up for confirmation when its number is in range. */
  predicate DeleteInv(count: nat, phase: DeletePhase) {
    phase.Confirm? ==> phase.index < count
  }

  lemma DeleteStepKeeps(count: nat, phase: DeletePhase, answer: string)
    requires DeleteInv(count, phase)
    ensures var s := DeleteStepOf(count, phase, answer);
            (s.Go? ==> DeleteInv(count, s.phase)) && (s.Remove? ==> s.index < count)
  {
  }

  /** Whatever the answers, a removed device is one of the list. */
  lemma {:induction false} RunDeleteInRange(count: nat, phase: DeletePhase, answers: seq<string>)
    requires DeleteInv(count, phase)
    ensures RunDelete(count, phase, answers).Removed? ==> RunDelete(count, phase, answers).index < count
    decreases |answers|
  {
    if answers != [] {
      DeleteStepKeeps(count, phase, answers[0]);
      var s := DeleteStepOf(count, phase, answers[0]);
      if s.Go? {
        RunDeleteInRange(count, s.phase, answers[1..]);
      }
    }
  }

  /** The confirmation removes exactly on "S" or "s", and cancels exactly on "N" or "n". */
  lemma ConfirmIff(index: nat, answer: string)
    ensures ConfirmAnswer(index, answer) == Remove(index) <==> answer == "S" || answer == "s"
    ensures ConfirmAnswer(index, answer) == Cancel <==> answer == "N" || answer == "n"
  {
    Inventory.UpperSingle(answer, 'S');
    Inventory.UpperSingle(answer, 'N');
  }

  /** "0" cancels, whatever the list holds. */
  lemma ZeroCancels(count: nat, answer: string)
    requires Strip(answer) == "0"
    ensures ChooseAnswer(count, answer) == Cancel
  {
  }

  /** Typing the number `k + 1` of a device and confirming with "S" removes device `k`. */
  lemma DeleteByNumber(count: nat, k: nat, rest: seq<string>)
    requires k < count
    ensures RunDelete(count, Choose, [NatToString(k + 1), "S"] + rest) == Removed(k)
  {
    var t := NatToString(k + 1);
    NatToStringValue(k + 1);
    DigitsHaveNoSpace(t);
    StripSpaceFree(t);
    PyIntOfDigits(t);
    assert DigitsValue("0") == 0;
    var answers := [t, "S"] + rest;
    assert answers[0] == t && answers[1..][0] == "S";
    assert ChooseAnswer(count, t) == Go(Confirm(k));
    ConfirmIff(k, "S");
  }

  // ---------------------------------------------------------------------------
  // The device list
  // ---------------------------------------------------------------------------

  /** The list of record texts the main menu keeps. */
  class DeviceList {
    var records: seq<string>

    constructor ()
      ensures records == []
    {
      records := [];
    }

    /** Option 1 of the main menu: the created text is kept when it is non-empty and holds no error mark. */
    method Create(kind: string, name: string, ip: Option<string>, mask: Option<string>,
                  layer: Option<string>, services: seq<string>) returns (stored: bool)
      modifies this
      ensures var text := CreateRecord(kind, name, ip, mask, layer, services);
              stored == Stored(text) && records == if stored then old(records) + [text] else old(records)
    {
      var text := CreateRecord(kind, name, ip, mask, layer, services);
      stored := Stored(text);
      if stored {
        records := records + [text];
      }
    }

    /**
     * `agregar_servicio_dispositivo` on the record at `index`: a forward scan
     * finds the services line; a label the guard of `variant` finds on it is
     * refused (as written, no label is ever found); otherwise that line gets
     * the label appended, or a backward scan finds the last separator rule and
     * a services line is inserted there.
     */
    method AddService(variant: Variant, index: nat, svc: string) returns (added: bool)
      requires index < |records|
      modifies this
      ensures added == ServiceEditOf(variant, old(records)[index], svc).Some?
      ensures records == if added then old(records)[index := ServiceEditOf(variant, old(records)[index], svc).value]
                         else old(records)
    {
      var lines := Split(records[index], '\n');
      var found := false;
      var j := 0;
      while j < |lines| && !found
        invariant 0 <= j <= |lines|
        invariant !found ==> FirstMarked(lines) == FirstMarkedFrom(lines, j)
        invariant found ==> j < |lines| && FirstMarked(lines) == Some(j)
        decreases |lines| - j, if found then 0 else 1
      {
        if Contains(lines[j], Marker()) {
          found := true;
        } else {
          j := j + 1;
        }
      }
      var existing := if found then Strip(SecondPiece(lines[j], Marker())) else "";
      assert existing == Existing(lines);
      if Listed(variant, existing, svc) {
        return false;
      }
      if found {
        lines := lines[j := FieldLine(ServiciosKey, Strip(existing + " " + svc))];
      } else {
        var at := |lines| - 1;
        var k := |lines| - 1;
        var done := false;
        while k >= 0 && !done
          invariant -1 <= k < |lines|
          invariant !done ==> at == |lines| - 1 && LastRule(lines) == LastRuleFrom(lines, k)
          invariant done ==> at == LastRule(lines)
          decreases k + 1, if done then 0 else 1
        {
          if Contains(lines[k], Separator) {
            at := k;
            done := true;
          } else {
            k := k - 1;
          }
        }
        lines := lines[..at] + [FieldLine(ServiciosKey, svc)] + lines[at..];
      }
      records := records[index := Join(lines, "\n")];
      added := true;
    }

    /**
     * `eliminar_dispositivo`: nothing happens on an empty list; otherwise the
     * answers are read, number then confirmation, until a device is removed,
     * the user cancels, or the answers run out.
     */
    method Delete(answers: seq<string>) returns (outcome: DeleteRun)
      modifies this
      ensures |old(records)| == 0 ==> outcome == Cancelled
      ensures |old(records)| > 0 ==> outcome == RunDelete(|old(records)|, Choose, answers)
      ensures outcome.Removed? ==> outcome.index < |old(records)| &&
                                   records == old(records)[..outcome.index] + old(records)[outcome.index + 1..]
      ensures !outcome.Removed? ==> records == old(records)
    {
      var count := |records|;
      if count == 0 {
        return Cancelled;
      }
      outcome := AskDelete(count, answers);
      if outcome.Removed? {
        var k := outcome.index;
        records := records[..k] + records[k + 1..];
      }
    }
  }

  /** The questions of `eliminar_dispositivo`, asked until an answer removes a device or cancels. */
  method AskDelete(count: nat, answers: seq<string>) returns (outcome: DeleteRun)
    ensures outcome == RunDelete(count, Choose, answers)
    ensures outcome.Removed? ==> outcome.index < count
  {
    RunDeleteInRange(count, Choose, answers);
    var phase := Choose;
    var i := 0;
    while i < |answers|
      invariant 0 <= i <= |answers|
      invariant RunDelete(count, phase, answers[i..]) == RunDelete(count, Choose, answers)
    {
      assert answers[i..][0] == answers[i] && answers[i..][1..] == answers[i + 1..];
      var step := DeleteStepOf(count, phase, answers[i]);
      if step.Remove? {
        return Removed(step.index);
      } else if step.Cancel? {
        return Cancelled;
      }
      phase := step.phase;
      i := i + 1;
    }
    return Pending;
  }

  // ---------------------------------------------------------------------------
  // Records made by the dialogue
  // ---------------------------------------------------------------------------

  /**
   * A device put together by the add dialogue is always kept: its name left
   * the name loop valid and its services come from the catalogue menu.
   */
  lemma DialogueRecordStored(kind: string, name: string, ip: Option<string>, mask: Option<string>,
                             layer: Option<string>, picks: seq<string>)
    requires ValidateShortName(name) == Pass
    requires forall i :: 0 <= i < |picks| ==> picks[i] in ServiceLabels || picks[i] == Classic.FinishLabel
    requires ValuesFree(kind, ip, mask, layer, '\U{274C}')
    ensures Stored(CreateRecord(kind, name, ip, mask, layer, Classic.Distinct(Classic.FirstRound(picks))))
  {
    var chosen := Classic.Distinct(Classic.FirstRound(picks));
    Classic.DistinctSpec(Classic.FirstRound(picks));
    forall i | 0 <= i < |chosen|
      ensures chosen[i] in ServiceLabels
    {
      assert chosen[i] in Classic.FirstRound(picks);
    }
    StoredIff(kind, name, ip, mask, layer, chosen);
  }

  /**
   * With the intended guard, a record created with services listed once each
   * keeps them listed once each: a listed label is refused, any other is
   * appended.
   */
  lemma EditKeepsDistinct(kind: string, name: string, ip: Option<string>, mask: Option<string>,
                          layer: Option<string>, services: seq<string>, svc: string)
    requires Classic.NoRepeats(services)
    requires CreateCheck(name, services + [svc]) == Pass && Plain(kind, ip, mask, layer)
    ensures var r := ServiceEdit(CreateRecord(kind, name, ip, mask, layer, services), svc);
            (r.None? <==> svc in services) &&
            (r.Some? ==> r.value == CreateRecord(kind, name, ip, mask, layer, services + [svc]) &&
                         Classic.NoRepeats(services + [svc]))
  {
    EditCreated(kind, name, ip, mask, layer, services, svc);
    var more := services + [svc];
    if svc !in services {
      forall i, j | 0 <= i < j < |more|
        ensures more[i] != more[j]
      {
        if j == |services| {
          assert more[i] == services[i];
        } else {
          assert more[i] == services[i] && more[j] == services[j];
        }
      }
    }
  }
}
