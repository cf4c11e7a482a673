/**
 * The network-configuration step `ingresar_ip_y_mascara` of the two
 * dictionary-based variants. The step is a prompt loop; it is modelled as a
 * step function over one answer, a run over a script of answers (the answers a
 * user types, in order), and a method that plays a script in a `while` loop.
 * The edit-session form (first variant) and the create form (second variant)
 * are separate dialogues.
 */
module Network {
  import opened Wrappers
  import opened Text
  import opened Ipv4
  import opened Catalog
  import opened Records

  /** The four values the step returns: IP, mask, IP type and layer. */
  datatype NetVars = NetVars(ip: Option<string>, mask: Option<string>, ipType: Option<string>, layer: Option<string>)

  const NoNet: NetVars := NetVars(None, None, None, None)

  /** The `IP_TYPE` text the address validator returns for a family. */
  function TypeName(f: Family): string {
    match f
    case V4 => "IPv4"
    case V6 => "IPv6"
  }

  predicate Consistent(v: NetVars) {
    NetConsistent(v.ip, v.mask, v.ipType)
  }

  /** The values the edit step starts from, read from the working copy with `get`. */
  function CurrentVars(w: Device): NetVars {
    NetVars(Get(w.ip), Get(w.mask), Get(w.ipType), Get(w.layer))
  }

  /** The edit session's four assignments `disp_edit[key] = value` after the step. */
  function ApplyNet(w: Device, v: NetVars): (r: Device)
    ensures CurrentVars(r) == v
    ensures r.kind == w.kind && r.name == w.name && r.services == w.services && r.vlans == w.vlans
    ensures r.ip != Absent && r.mask != Absent && r.ipType != Absent && r.layer != Absent
  {
    w.(ip := Put(v.ip), mask := Put(v.mask), ipType := Put(v.ipType), layer := Put(v.layer))
  }

  /** The written record's network fields agree exactly when the returned values do. */
  lemma ApplyNetConsistent(w: Device, v: NetVars)
    ensures DeviceNetConsistent(ApplyNet(w, v)) <==> Consistent(v)
  {
  }

  // ---------------------------------------------------------------------------
  // The layer menu
  // ---------------------------------------------------------------------------

  /** What `seleccionar_opcion` makes of one answer: keep the value, a chosen label, or ask again. */
  datatype Pick = Keep | Chosen(choice: string) | Again

  /** A menu number `int(t)` in `1..size`, or `None` for anything else. */
  function MenuNumber(t: string, size: nat): (r: Option<nat>)
    ensures r.Some? ==> 1 <= r.value <= size && PyInt(t) == Some(r.value as int)
    ensures r.None? ==> PyInt(t).None? || !(1 <= PyInt(t).value <= size)
  {
    match PyInt(t)
    case None => None
    case Some(n) => if 1 <= n <= size then Some(n as nat) else None
  }

  /**
   * One stripped answer `t` on the layer menu. `hasCurrent` is `mostrar_actual
   * is not None`: only then does an empty answer keep the current value.
   */
  function PickLayer(t: string, hasCurrent: bool): (r: Pick)
    ensures r == Keep <==> t == "0" || (t == "" && hasCurrent)
    ensures r.Chosen? <==> r != Keep && MenuNumber(t, |LayerLabels|).Some?
    ensures r.Chosen? ==> r.choice == LayerLabels[MenuNumber(t, |LayerLabels|).value - 1]
  {
    if t == "0" || (t == "" && hasCurrent) then Keep
    else
      match MenuNumber(t, |LayerLabels|)
      case None => Again
      case Some(n) => Chosen(LayerLabels[n - 1])
  }

  // ---------------------------------------------------------------------------
  // The edit form (first variant)
  // ---------------------------------------------------------------------------

  datatype EditPhase = AskIp | AskMask | AskLayer | AskRetry
  datatype EditState = EditState(phase: EditPhase, vars: NetVars)

  /** One answer either moves the dialogue on, returns four values, or returns `VOLVER_MENU_EDIT`. */
  datatype EditStep = Next(state: EditState) | Finish(vars: NetVars) | Cancel

  /** A whole script: returned values, `VOLVER_MENU_EDIT`, or still prompting when the script ends. */
  datatype EditRun = Finished(vars: NetVars) | Cancelled | Unfinished(state: EditState)

  /** The duplicate-IP test: as written it compares with the working copy's IP, corrected it excludes the record by index. */
  predicate EditClash(variant: Variant, devices: seq<Device>, index: nat, working: Device, ip: string) {
    match variant
    case AsWritten => IpClashAsWritten(devices, working, ip)
    case Corrected => IpTakenByOther(devices, index, ip)
  }

  /** The mask validator the step calls: as written it lets any zero mask not spelt `0.0.0.0` through. */
  function MaskCheck(variant: Variant, s: string): Outcome<MaskError> {
    match variant
    case AsWritten => ValidateMaskAsWritten(s)
    case Corrected => ValidateMask(s)
  }

  function EditStart(working: Device): EditState {
    EditState(AskIp, CurrentVars(working))
  }

  /**
   * One stripped answer `t` at the IP prompt holding `v`: `0` cancels, an empty
   * answer keeps the values, `-` clears IP, mask and type, an invalid address
   * asks whether to retry, a duplicate asks again; an IPv4 address goes on to
   * the mask and an IPv6 address clears the mask and goes on to the layer.
   */
  function IpAnswer(variant: Variant, devices: seq<Device>, index: nat, working: Device,
                    v: NetVars, t: string, isIpv6: string -> bool): EditStep
  {
    if t == "0" then Cancel
    else if t == "" then Finish(v)
    else if t == "-" then Finish(v.(ip := None, mask := None, ipType := None))
    else
      match ValidateAddress(t, isIpv6)
      case Err(_) => Next(EditState(AskRetry, v))
      case Ok(fam) =>
        if EditClash(variant, devices, index, working, t) then Next(EditState(AskIp, v))
        else if fam == V4 then Next(EditState(AskMask, v.(ip := Some(t), ipType := Some("IPv4"))))
        else Next(EditState(AskLayer, v.(ip := Some(t), ipType := Some("IPv6"), mask := None)))
  }

  /**
   * One stripped answer at the mask prompt: `0` goes back to the IP prompt
   * clearing IP and type (as written, not the mask), an empty answer keeps a
   * truthy mask, a valid mask goes on to the layer, anything else asks again.
   */
  function MaskAnswer(variant: Variant, v: NetVars, t: string): EditStep {
    if t == "0" then
      (match variant
       case AsWritten => Next(EditState(AskIp, v.(ip := None, ipType := None)))
       case Corrected => Next(EditState(AskIp, v.(ip := None, ipType := None, mask := None))))
    else if t == "" then (if Truthy(v.mask) then Next(EditState(AskLayer, v)) else Next(EditState(AskMask, v)))
    else if MaskCheck(variant, t) == Pass then Next(EditState(AskLayer, v.(mask := Some(t))))
    else Next(EditState(AskMask, v))
  }

  /** The layer menu keeps the current layer, sets the chosen one, or asks again. */
  function LayerAnswer(v: NetVars, t: string): EditStep {
    match PickLayer(t, v.layer.Some?)
    case Keep => Finish(v)
    case Chosen(l) => Finish(v.(layer := Some(l)))
    case Again => Next(EditState(AskLayer, v))
  }

  /** After an invalid address, any answer but `s` returns the working copy's own values. */
  function RetryAnswer(working: Device, v: NetVars, t: string): EditStep {
    if Lower(t) != "s" then Finish(CurrentVars(working)) else Next(EditState(AskIp, v))
  }

  /** One answer of the edit form, stripped and handled by the prompt the dialogue is at. */
  function EditStepOf(variant: Variant, devices: seq<Device>, index: nat, working: Device,
                      st: EditState, answer: string, isIpv6: string -> bool): EditStep
  {
    var t := Strip(answer);
    match st.phase
    case AskIp => IpAnswer(variant, devices, index, working, st.vars, t, isIpv6)
    case AskMask => MaskAnswer(variant, st.vars, t)
    case AskLayer => LayerAnswer(st.vars, t)
    case AskRetry => RetryAnswer(working, st.vars, t)
  }

  function RunEdit(variant: Variant, devices: seq<Device>, index: nat, working: Device,
                   st: EditState, answers: seq<string>, isIpv6: string -> bool): EditRun
    decreases |answers|
  {
    if answers == [] then Unfinished(st)
    else
      match EditStepOf(variant, devices, index, working, st, answers[0], isIpv6)
      case Cancel => Cancelled
      case Finish(v) => Finished(v)
      case Next(s) => RunEdit(variant, devices, index, working, s, answers[1..], isIpv6)
  }

  /** Plays a script through the edit form, one answer per iteration. */
  method PlayEdit(variant: Variant, devices: seq<Device>, index: nat, working: Device,
                  answers: seq<string>, isIpv6: string -> bool) returns (r: EditRun)
    ensures r == RunEdit(variant, devices, index, working, EditStart(working), answers, isIpv6)
  {
    var st := EditStart(working);
    var i := 0;
    while i < |answers|
      invariant 0 <= i <= |answers|
      invariant RunEdit(variant, devices, index, working, st, answers[i..], isIpv6) ==
                RunEdit(variant, devices, index, working, EditStart(working), answers, isIpv6)
    {
      assert answers[i..][0] == answers[i] && answers[i..][1..] == answers[i + 1..];
      var step := EditStepOf(variant, devices, index, working, st, answers[i], isIpv6);
      if step.Cancel? {
        return Cancelled;
      } else if step.Finish? {
        return Finished(step.vars);
      }
      st := step.state;
      i := i + 1;
    }
    r := Unfinished(st);
  }

  /** An IP the state holds, other than the working copy's own, is valid and held by no other record. */
  predicate FreshIp(devices: seq<Device>, index: nat, working: Device, v: NetVars, isIpv6: string -> bool) {
    v.ip.Some? && v.ip != Get(working.ip) ==>
      ValidateAddress(v.ip.value, isIpv6).Ok? && !IpTakenByOther(devices, index, v.ip.value)
  }

  /** What the corrected edit form keeps true between answers. */
  predicate EditInv(devices: seq<Device>, index: nat, working: Device, st: EditState, isIpv6: string -> bool) {
    FreshIp(devices, index, working, st.vars, isIpv6) &&
    if st.phase == AskMask then
      st.vars.ip.Some? && st.vars.ipType == Some("IPv4") &&
      (st.vars.mask.Some? ==> ValidateMask(st.vars.mask.value) == Pass)
    else Consistent(st.vars)
  }

  /** The result of one answer keeps the invariant, or is a consistent and fresh return. */
  predicate StepGood(devices: seq<Device>, index: nat, working: Device, step: EditStep, isIpv6: string -> bool) {
    match step
    case Next(s) => EditInv(devices, index, working, s, isIpv6)
    case Finish(v) => Consistent(v) && FreshIp(devices, index, working, v, isIpv6)
    case Cancel => true
  }

  /** An accepted, unused IPv4 address goes on to the mask prompt with the invariant. */
  lemma IpAnswerV4(devices: seq<Device>, index: nat, working: Device, v: NetVars, t: string, isIpv6: string -> bool)
    requires t != "0" && t != "" && t != "-"
    requires ValidateAddress(t, isIpv6) == Ok(V4) && !IpTakenByOther(devices, index, t)
    requires Consistent(v)
    ensures StepGood(devices, index, working, IpAnswer(Corrected, devices, index, working, v, t, isIpv6), isIpv6)
  {
    assert IpAnswer(Corrected, devices, index, working, v, t, isIpv6) ==
           Next(EditState(AskMask, v.(ip := Some(t), ipType := Some("IPv4"))));
  }

  /** An accepted, unused IPv6 address goes on to the layer menu with no mask. */
  lemma IpAnswerV6(devices: seq<Device>, index: nat, working: Device, v: NetVars, t: string, isIpv6: string -> bool)
    requires t != "0" && t != "" && t != "-"
    requires ValidateAddress(t, isIpv6) == Ok(V6) && !IpTakenByOther(devices, index, t)
    ensures StepGood(devices, index, working, IpAnswer(Corrected, devices, index, working, v, t, isIpv6), isIpv6)
  {
    assert IpAnswer(Corrected, devices, index, working, v, t, isIpv6) ==
           Next(EditState(AskLayer, v.(ip := Some(t), ipType := Some("IPv6"), mask := None)));
  }

  lemma IpAnswerKeeps(devices: seq<Device>, index: nat, working: Device, v: NetVars, t: string, isIpv6: string -> bool)
    requires Consistent(v) && FreshIp(devices, index, working, v, isIpv6)
    ensures StepGood(devices, index, working, IpAnswer(Corrected, devices, index, working, v, t, isIpv6), isIpv6)
  {
    if t == "0" || t == "" || t == "-" {
    } else if ValidateAddress(t, isIpv6).Err? || IpTakenByOther(devices, index, t) {
    } else if ValidateAddress(t, isIpv6).value == V4 {
      IpAnswerV4(devices, index, working, v, t, isIpv6);
    } else {
      IpAnswerV6(devices, index, working, v, t, isIpv6);
    }
  }

  lemma IpStepKeeps(devices: seq<Device>, index: nat, working: Device, st: EditState,
                    answer: string, isIpv6: string -> bool)
    requires st.phase == AskIp
    requires Consistent(CurrentVars(working))
    requires EditInv(devices, index, working, st, isIpv6)
    ensures StepGood(devices, index, working, EditStepOf(Corrected, devices, index, working, st, answer, isIpv6), isIpv6)
  {
    assert EditStepOf(Corrected, devices, index, working, st, answer, isIpv6) ==
           IpAnswer(Corrected, devices, index, working, st.vars, Strip(answer), isIpv6);
    IpAnswerKeeps(devices, index, working, st.vars, Strip(answer), isIpv6);
  }

  lemma MaskStepKeeps(devices: seq<Device>, index: nat, working: Device, st: EditState,
                    answer: string, isIpv6: string -> bool)
    requires st.phase == AskMask
    requires Consistent(CurrentVars(working))
    requires EditInv(devices, index, working, st, isIpv6)
    ensures StepGood(devices, index, working, EditStepOf(Corrected, devices, index, working, st, answer, isIpv6), isIpv6)
  {
    assert EditStepOf(Corrected, devices, index, working, st, answer, isIpv6) ==
           MaskAnswer(Corrected, st.vars, Strip(answer));
    MaskAnswerKeeps(devices, index, working, st.vars, Strip(answer), isIpv6);
  }

  lemma LayerStepKeeps(devices: seq<Device>, index: nat, working: Device, st: EditState,
                    answer: string, isIpv6: string -> bool)
    requires st.phase == AskLayer
    requires Consistent(CurrentVars(working))
    requires EditInv(devices, index, working, st, isIpv6)
    ensures StepGood(devices, index, working, EditStepOf(Corrected, devices, index, working, st, answer, isIpv6), isIpv6)
  {
    assert EditStepOf(Corrected, devices, index, working, st, answer, isIpv6) ==
           LayerAnswer(st.vars, Strip(answer));
    LayerAnswerKeeps(devices, index, working, st.vars, Strip(answer), isIpv6);
  }

  lemma RetryStepKeeps(devices: seq<Device>, index: nat, working: Device, st: EditState,
                    answer: string, isIpv6: string -> bool)
    requires st.phase == AskRetry
    requires Consistent(CurrentVars(working))
    requires EditInv(devices, index, working, st, isIpv6)
    ensures StepGood(devices, index, working, EditStepOf(Corrected, devices, index, working, st, answer, isIpv6), isIpv6)
  {
    assert EditStepOf(Corrected, devices, index, working, st, answer, isIpv6) ==
           RetryAnswer(working, st.vars, Strip(answer));
    RetryAnswerKeeps(devices, index, working, st.vars, Strip(answer), isIpv6);
  }

  /** At the mask prompt, a corrected answer keeps the invariant. */
  lemma MaskAnswerKeeps(devices: seq<Device>, index: nat, working: Device, v: NetVars, t: string, isIpv6: string -> bool)
    requires EditInv(devices, index, working, EditState(AskMask, v), isIpv6)
    ensures StepGood(devices, index, working, MaskAnswer(Corrected, v, t), isIpv6)
  {
    if t == "0" {
      assert MaskAnswer(Corrected, v, t) == Next(EditState(AskIp, v.(ip := None, ipType := None, mask := None)));
    } else if t != "" && ValidateMask(t) == Pass {
      assert MaskAnswer(Corrected, v, t) == Next(EditState(AskLayer, v.(mask := Some(t))));
    }
  }

  /** On the layer menu, an answer keeps the invariant or returns the held values with a layer. */
  lemma LayerAnswerKeeps(devices: seq<Device>, index: nat, working: Device, v: NetVars, t: string, isIpv6: string -> bool)
    requires EditInv(devices, index, working, EditState(AskLayer, v), isIpv6)
    ensures StepGood(devices, index, working, LayerAnswer(v, t), isIpv6)
  {
  }

  /** After an invalid address, the working copy's own values are returned, or the IP prompt comes back. */
  lemma RetryAnswerKeeps(devices: seq<Device>, index: nat, working: Device, v: NetVars, t: string, isIpv6: string -> bool)
    requires Consistent(CurrentVars(working))
    requires EditInv(devices, index, working, EditState(AskRetry, v), isIpv6)
    ensures StepGood(devices, index, working, RetryAnswer(working, v, t), isIpv6)
  {
  }

  /** One answer keeps the invariant, and a returned value is consistent and fresh. */
  lemma EditStepKeeps(devices: seq<Device>, index: nat, working: Device, st: EditState,
                      answer: string, isIpv6: string -> bool)
    requires Consistent(CurrentVars(working))
    requires EditInv(devices, index, working, st, isIpv6)
    ensures StepGood(devices, index, working, EditStepOf(Corrected, devices, index, working, st, answer, isIpv6), isIpv6)
  {
    match st.phase
    case AskIp => IpStepKeeps(devices, index, working, st, answer, isIpv6);
    case AskMask => MaskStepKeeps(devices, index, working, st, answer, isIpv6);
    case AskLayer => LayerStepKeeps(devices, index, working, st, answer, isIpv6);
    case AskRetry => RetryStepKeeps(devices, index, working, st, answer, isIpv6);
  }

  /**
   * With the corrections, every script that ends with returned values returns
   * consistent network values whose IP, if new, is valid and not another
   * record's; unfinished scripts leave the dialogue in a state that keeps the invariant.
   */
  lemma {:induction false} EditRunKeeps(devices: seq<Device>, index: nat, working: Device, st: EditState,
                                        answers: seq<string>, isIpv6: string -> bool)
    requires Consistent(CurrentVars(working))
    requires EditInv(devices, index, working, st, isIpv6)
    ensures match RunEdit(Corrected, devices, index, working, st, answers, isIpv6)
            case Finished(v) => Consistent(v) && FreshIp(devices, index, working, v, isIpv6)
            case Unfinished(s) => EditInv(devices, index, working, s, isIpv6)
            case Cancelled => true
    decreases |answers|
  {
    if answers != [] {
      EditStepKeeps(devices, index, working, st, answers[0], isIpv6);
      var step := EditStepOf(Corrected, devices, index, working, st, answers[0], isIpv6);
      if step.Next? {
        EditRunKeeps(devices, index, working, step.state, answers[1..], isIpv6);
      }
    }
  }

  /** The corrected edit form, started on a consistent working copy, returns consistent values. */
  lemma EditDialogueConsistent(devices: seq<Device>, index: nat, working: Device,
                               answers: seq<string>, isIpv6: string -> bool)
    requires Consistent(CurrentVars(working))
    ensures var r := RunEdit(Corrected, devices, index, working, EditStart(working), answers, isIpv6);
            r.Finished? ==> Consistent(r.vars) && FreshIp(devices, index, working, r.vars, isIpv6)
  {
    EditRunKeeps(devices, index, working, EditStart(working), answers, isIpv6);
  }

  /** Text the address validator accepts as IPv4 is none of the three command answers. */
  lemma V4IsNoCommand(t: string, isIpv6: string -> bool)
    requires ValidateAddress(t, isIpv6) == Ok(V4)
    ensures t != "0" && t != "" && t != "-"
  {
    ValidateAddressV4Iff(t, isIpv6);
    var p := Split(Strip(t), '.');
    assert |p| == 4;
    JoinSplit(Strip(t), '.');
    assert Strip(t) == p[0] + "." + Join(p[1..], ".");
    assert |Strip(t)| >= 2;
    assert |Strip(t)| <= |t|;
  }

  /** The state the mask-cancel script reaches after its valid, unused IPv4 address `a`. */
  function AfterAddress(working: Device, a: string): EditState {
    EditState(AskMask, CurrentVars(working).(ip := Some(Strip(a)), ipType := Some("IPv4")))
  }

  /** The mask each variant leaves after `0` at the mask prompt. */
  function MaskAfterCancel(variant: Variant, mask: Option<string>): Option<string> {
    if variant == AsWritten then mask else None
  }

  lemma AddressStep(variant: Variant, devices: seq<Device>, index: nat, working: Device, a: string, isIpv6: string -> bool)
    requires ValidateAddress(Strip(a), isIpv6) == Ok(V4)
    requires !EditClash(variant, devices, index, working, Strip(a))
    ensures EditStepOf(variant, devices, index, working, EditStart(working), a, isIpv6) == Next(AfterAddress(working, a))
  {
    V4IsNoCommand(Strip(a), isIpv6);
  }

  lemma MaskZeroStep(variant: Variant, devices: seq<Device>, index: nat, working: Device, st: EditState,
                     z: string, isIpv6: string -> bool)
    requires st.phase == AskMask && Strip(z) == "0"
    ensures EditStepOf(variant, devices, index, working, st, z, isIpv6) ==
            Next(EditState(AskIp, st.vars.(ip := None, ipType := None, mask := MaskAfterCancel(variant, st.vars.mask))))
  {
    assert EditStepOf(variant, devices, index, working, st, z, isIpv6) == MaskAnswer(variant, st.vars, Strip(z));
  }

  lemma IpEmptyStep(variant: Variant, devices: seq<Device>, index: nat, working: Device, st: EditState,
                    e: string, isIpv6: string -> bool)
    requires st.phase == AskIp && Strip(e) == ""
    ensures EditStepOf(variant, devices, index, working, st, e, isIpv6) == Finish(st.vars)
  {
    assert EditStepOf(variant, devices, index, working, st, e, isIpv6) ==
           IpAnswer(variant, devices, index, working, st.vars, Strip(e), isIpv6);
  }

  /** A run whose first answer moves the dialogue on continues from the next state. */
  lemma RunEditNext(variant: Variant, devices: seq<Device>, index: nat, working: Device,
                    st: EditState, s: EditState, answers: seq<string>, isIpv6: string -> bool)
    requires answers != [] && EditStepOf(variant, devices, index, working, st, answers[0], isIpv6) == Next(s)
    ensures RunEdit(variant, devices, index, working, st, answers, isIpv6) ==
            RunEdit(variant, devices, index, working, s, answers[1..], isIpv6)
  {
  }

  /** A run whose first answer returns values finishes with them. */
  lemma RunEditFinish(variant: Variant, devices: seq<Device>, index: nat, working: Device,
                      st: EditState, v: NetVars, answers: seq<string>, isIpv6: string -> bool)
    requires answers != [] && EditStepOf(variant, devices, index, working, st, answers[0], isIpv6) == Finish(v)
    ensures RunEdit(variant, devices, index, working, st, answers, isIpv6) == Finished(v)
  {
  }

  /**
   * The script of the mask-cancel findings: an address `a`, an answer `z` that
   * strips to `0` and an answer `e` that strips to nothing, one step at a time.
   */
  lemma MaskCancelSteps(variant: Variant, devices: seq<Device>, index: nat, working: Device,
                        a: string, z: string, e: string, isIpv6: string -> bool)
    requires ValidateAddress(Strip(a), isIpv6) == Ok(V4)
    requires !EditClash(variant, devices, index, working, Strip(a))
    requires Strip(z) == "0" && Strip(e) == ""
    ensures var v := CurrentVars(working);
            RunEdit(variant, devices, index, working, EditStart(working), [a, z, e], isIpv6) ==
            Finished(v.(ip := None, ipType := None, mask := MaskAfterCancel(variant, v.mask)))
  {
    var s1 := AfterAddress(working, a);
    var s2 := EditState(AskIp, s1.vars.(ip := None, ipType := None, mask := MaskAfterCancel(variant, s1.vars.mask)));
    AddressStep(variant, devices, index, working, a, isIpv6);
    MaskZeroStep(variant, devices, index, working, s1, z, isIpv6);
    IpEmptyStep(variant, devices, index, working, s2, e, isIpv6);
    var answers := [a, z, e];
    assert answers[1..] == [z, e] && answers[1..][1..] == [e];
    RunEditNext(variant, devices, index, working, EditStart(working), s1, answers, isIpv6);
    RunEditNext(variant, devices, index, working, s1, s2, answers[1..], isIpv6);
    RunEditFinish(variant, devices, index, working, s2, s2.vars, answers[1..][1..], isIpv6);
  }

  /** A mask with no IP and no type is not a consistent set of network values. */
  lemma MaskWithoutIp(m: string, l: Option<string>)
    ensures !Consistent(NetVars(None, Some(m), None, l))
  {
  }

  /** No IP, no type and no mask are consistent network values. */
  lemma NoNetworkConsistent(l: Option<string>)
    ensures Consistent(NetVars(None, None, None, l))
  {
  }

  /**
   * As written, cancelling at the mask prompt clears the IP and the type but
   * keeps the mask: on a working copy with a mask, a new IPv4 address, then `0`,
   * then an empty answer returns a mask with no IP, which is not consistent.
   */
  lemma MaskCancelKeepsMask(devices: seq<Device>, index: nat, working: Device,
                            a: string, z: string, e: string, isIpv6: string -> bool)
    requires Get(working.mask).Some?
    requires ValidateAddress(Strip(a), isIpv6) == Ok(V4)
    requires !IpClashAsWritten(devices, working, Strip(a))
    requires Strip(z) == "0" && Strip(e) == ""
    ensures RunEdit(AsWritten, devices, index, working, EditStart(working), [a, z, e], isIpv6) ==
            Finished(NetVars(None, Get(working.mask), None, Get(working.layer)))
    ensures !Consistent(NetVars(None, Get(working.mask), None, Get(working.layer)))
  {
    MaskCancelSteps(AsWritten, devices, index, working, a, z, e, isIpv6);
    MaskWithoutIp(Get(working.mask).value, Get(working.layer));
  }

  /** Corrected, the same script returns no IP, no type and no mask, which is consistent. */
  lemma MaskCancelClearsMask(devices: seq<Device>, index: nat, working: Device,
                             a: string, z: string, e: string, isIpv6: string -> bool)
    requires ValidateAddress(Strip(a), isIpv6) == Ok(V4)
    requires !IpTakenByOther(devices, index, Strip(a))
    requires Strip(z) == "0" && Strip(e) == ""
    ensures RunEdit(Corrected, devices, index, working, EditStart(working), [a, z, e], isIpv6) ==
            Finished(NetVars(None, None, None, Get(working.layer)))
    ensures Consistent(NetVars(None, None, None, Get(working.layer)))
  {
    assert !EditClash(Corrected, devices, index, working, Strip(a));
    MaskCancelSteps(Corrected, devices, index, working, a, z, e, isIpv6);
    var v := CurrentVars(working);
    assert MaskAfterCancel(Corrected, v.mask) == None;
    assert v.(ip := None, ipType := None, mask := None) == NetVars(None, None, None, Get(working.layer));
    NoNetworkConsistent(Get(working.layer));
  }


  // ---------------------------------------------------------------------------
  // The create form (second variant)
  // ---------------------------------------------------------------------------

  datatype CreatePhase = NewIp | NewLayer(ip: string, family: Family) | NewMask(ip: string, layer: string) | NewRetry

  /** One answer moves the dialogue on, returns four values, or returns `VOLVER`. */
  datatype CreateStep = CNext(phase: CreatePhase) | CDone(vars: NetVars) | CBack

  datatype CreateRun = Configured(vars: NetVars) | Abandoned | Pending(phase: CreatePhase)

  /**
   * One stripped answer at the create form's IP prompt: an empty IP gives no
   * network values, `0` cancels, an invalid address asks whether to retry, an
   * IP already in use asks again, a valid address goes on to the layer menu.
   */
  function NewIpAnswer(devices: seq<Device>, t: string, isIpv6: string -> bool): CreateStep {
    if t == "" then CDone(NoNet)
    else if t == "0" then CBack
    else
      match ValidateAddress(t, isIpv6)
      case Err(_) => CNext(NewRetry)
      case Ok(fam) => if IpInUse(devices, t) then CNext(NewIp) else CNext(NewLayer(t, fam))
  }

  /** What the second variant's `seleccionar_opcion` makes of one answer: `VOLVER`, a chosen label, or ask again. */
  datatype MenuReply = Back | Picked(choice: string) | Reask

  /**
   * The second variant's `seleccionar_opcion` with `permitir_volver` on one raw
   * answer: the number is `int(answer)`, so any spelling of zero goes back, a
   * number in range chooses that label, and anything else (an empty answer, a
   * `ValueError`, a number out of range) asks again.
   */
  function SelectOption(answer: string, labels: seq<string>): (r: MenuReply)
    ensures r == Back <==> PyInt(answer) == Some(0)
    ensures r.Picked? <==> MenuNumber(answer, |labels|).Some?
    ensures r.Picked? ==> r.choice == labels[MenuNumber(answer, |labels|).value - 1]
  {
    match PyInt(answer)
    case None => Reask
    case Some(n) => if n == 0 then Back else if 1 <= n <= |labels| then Picked(labels[n - 1]) else Reask
  }

  /**
   * Any answer that `int()` reads as zero and that is not the text `0` goes
   * back on the second variant's menu and asks again on the first's, which
   * compares the text with `0`.
   */
  lemma ZeroSpellingParts(t: string, labels: seq<string>)
    requires PyInt(t) == Some(0) && t != "0"
    ensures SelectOption(t, labels) == Back && PickLayer(t, false) == Again
  {
  }

  /** `int()` reads `00` and `-0` as zero, and refuses the empty answer. */
  lemma ZeroSpellings()
    ensures PyInt("00") == Some(0) && PyInt("-0") == Some(0) && PyInt("") == None
  {
    PyIntOfDigits("00");
    StripSpaceFree("-0");
    ParseUnsignedDigits("0");
    assert "-0"[1..] == "0";
    StripSpaceFree("");
  }

  /**
   * The two layer menus part on the same answers: `00` and `-0` go back on the
   * second variant's menu and ask again on the first's; an empty answer asks
   * again on the second variant's menu and keeps the layer on the first's
   * when one is set.
   */
  lemma MenusPartOnZeroSpellings(labels: seq<string>)
    ensures SelectOption("00", labels) == Back && PickLayer("00", false) == Again
    ensures SelectOption("-0", labels) == Back && PickLayer("-0", false) == Again
    ensures SelectOption("", labels) == Reask && PickLayer("", true) == Keep
  {
    ZeroSpellings();
    ZeroSpellingParts("00", labels);
    ZeroSpellingParts("-0", labels);
  }

  /**
   * One raw answer on the layer menu (`int()` strips it itself): `VOLVER` goes
   * back to the IP prompt; a chosen layer returns an IPv6 address with no mask,
   * or goes on to the mask prompt for an IPv4 address.
   */
  function NewLayerAnswer(ip: string, fam: Family, answer: string): CreateStep {
    match SelectOption(answer, LayerLabels)
    case Back => CNext(NewIp)
    case Reask => CNext(NewLayer(ip, fam))
    case Picked(l) =>
      if fam == V4 then CNext(NewMask(ip, l))
      else CDone(NetVars(Some(ip), None, Some("IPv6"), Some(l)))
  }

  /** One stripped answer at the mask prompt, which returns only with a mask the validator passes. */
  function NewMaskAnswer(variant: Variant, ip: string, l: string, t: string): CreateStep {
    if t == "0" then CNext(NewIp)
    else if t == "" then CNext(NewMask(ip, l))
    else if MaskCheck(variant, t) == Pass then CDone(NetVars(Some(ip), Some(t), Some("IPv4"), Some(l)))
    else CNext(NewMask(ip, l))
  }

  /** One answer of the create form, handled by the prompt the form is at. */
  function CreateStepOf(variant: Variant, devices: seq<Device>, phase: CreatePhase, answer: string,
                        isIpv6: string -> bool): CreateStep
  {
    var t := Strip(answer);
    match phase
    case NewIp => NewIpAnswer(devices, t, isIpv6)
    case NewLayer(ip, fam) => NewLayerAnswer(ip, fam, answer)
    case NewMask(ip, l) => NewMaskAnswer(variant, ip, l, t)
    case NewRetry => if Lower(t) != "s" then CBack else CNext(NewIp)
  }

  function RunCreate(variant: Variant, devices: seq<Device>, phase: CreatePhase, answers: seq<string>,
                     isIpv6: string -> bool): CreateRun
    decreases |answers|
  {
    if answers == [] then Pending(phase)
    else
      match CreateStepOf(variant, devices, phase, answers[0], isIpv6)
      case CBack => Abandoned
      case CDone(v) => Configured(v)
      case CNext(p) => RunCreate(variant, devices, p, answers[1..], isIpv6)
  }

  /** Plays a script through the create form, one answer per iteration. */
  method PlayCreate(variant: Variant, devices: seq<Device>, answers: seq<string>, isIpv6: string -> bool)
    returns (r: CreateRun)
    ensures r == RunCreate(variant, devices, NewIp, answers, isIpv6)
  {
    var phase := NewIp;
    var i := 0;
    while i < |answers|
      invariant 0 <= i <= |answers|
      invariant RunCreate(variant, devices, phase, answers[i..], isIpv6) == RunCreate(variant, devices, NewIp, answers, isIpv6)
    {
      assert answers[i..][0] == answers[i] && answers[i..][1..] == answers[i + 1..];
      var step := CreateStepOf(variant, devices, phase, answers[i], isIpv6);
      if step.CBack? {
        return Abandoned;
      } else if step.CDone? {
        return Configured(step.vars);
      }
      phase := step.phase;
      i := i + 1;
    }
    r := Pending(phase);
  }

  /**
   * A returned configuration: nothing, or a valid unused address of the right
   * type, with a layer, and an IPv4 mask the variant's validator passes (IPv6:
   * no mask).
   */
  predicate GoodConfig(variant: Variant, devices: seq<Device>, v: NetVars, isIpv6: string -> bool) {
    v == NoNet ||
    (v.ip.Some? && !IpInUse(devices, v.ip.value) && ValidateAddress(v.ip.value, isIpv6).Ok? &&
     v.ipType == Some(TypeName(ValidateAddress(v.ip.value, isIpv6).value)) &&
     v.layer.Some? && v.layer.value in LayerLabels &&
     (v.ipType == Some("IPv4") ==> v.mask.Some? && MaskCheck(variant, v.mask.value) == Pass) &&
     (v.ipType == Some("IPv6") ==> v.mask.None?))
  }

  /** With the intended validator, a good configuration has consistent network values. */
  lemma GoodConfigConsistent(devices: seq<Device>, v: NetVars, isIpv6: string -> bool)
    requires GoodConfig(Corrected, devices, v, isIpv6)
    ensures Consistent(v)
  {
    if v != NoNet {
      match ValidateAddress(v.ip.value, isIpv6).value
      case V4 =>
      case V6 =>
    }
  }

  /** What the create form keeps true of the address it holds. */
  predicate CreateInv(devices: seq<Device>, phase: CreatePhase, isIpv6: string -> bool) {
    match phase
    case NewLayer(ip, fam) => ValidateAddress(ip, isIpv6) == Ok(fam) && !IpInUse(devices, ip)
    case NewMask(ip, l) => ValidateAddress(ip, isIpv6) == Ok(V4) && !IpInUse(devices, ip) && l in LayerLabels
    case _ => true
  }

  /** The result of one create answer keeps the invariant, or is a good configuration. */
  predicate CreateStepGood(variant: Variant, devices: seq<Device>, step: CreateStep, isIpv6: string -> bool) {
    match step
    case CNext(p) => CreateInv(devices, p, isIpv6)
    case CDone(v) => GoodConfig(variant, devices, v, isIpv6)
    case CBack => true
  }

  /** At the create form's IP prompt, an answer gives nothing, or an address that validates and is unused. */
  lemma NewIpAnswerKeeps(variant: Variant, devices: seq<Device>, t: string, isIpv6: string -> bool)
    ensures CreateStepGood(variant, devices, NewIpAnswer(devices, t, isIpv6), isIpv6)
  {
    if t != "" && t != "0" && ValidateAddress(t, isIpv6).Ok? && !IpInUse(devices, t) {
      assert NewIpAnswer(devices, t, isIpv6) == CNext(NewLayer(t, ValidateAddress(t, isIpv6).value));
    }
  }

  /** On the create form's layer menu, the address is kept, and a chosen layer is a catalogue layer. */
  lemma NewLayerAnswerKeeps(variant: Variant, devices: seq<Device>, ip: string, fam: Family, answer: string,
                            isIpv6: string -> bool)
    requires CreateInv(devices, NewLayer(ip, fam), isIpv6)
    ensures CreateStepGood(variant, devices, NewLayerAnswer(ip, fam, answer), isIpv6)
  {
    match SelectOption(answer, LayerLabels)
    case Back =>
    case Reask =>
    case Picked(l) =>
      if fam == V4 {
        assert NewLayerAnswer(ip, fam, answer) == CNext(NewMask(ip, l));
      } else {
        assert NewLayerAnswer(ip, fam, answer) == CDone(NetVars(Some(ip), None, Some("IPv6"), Some(l)));
      }
  }

  /** At the create form's mask prompt, only a mask the validator passes is returned, with the held IPv4 address. */
  lemma NewMaskAnswerKeeps(variant: Variant, devices: seq<Device>, ip: string, l: string, t: string,
                           isIpv6: string -> bool)
    requires CreateInv(devices, NewMask(ip, l), isIpv6)
    ensures CreateStepGood(variant, devices, NewMaskAnswer(variant, ip, l, t), isIpv6)
  {
    if t != "0" && t != "" && MaskCheck(variant, t) == Pass {
      assert NewMaskAnswer(variant, ip, l, t) == CDone(NetVars(Some(ip), Some(t), Some("IPv4"), Some(l)));
    }
  }

  lemma CreateStepKeeps(variant: Variant, devices: seq<Device>, phase: CreatePhase, answer: string,
                        isIpv6: string -> bool)
    requires CreateInv(devices, phase, isIpv6)
    ensures CreateStepGood(variant, devices, CreateStepOf(variant, devices, phase, answer, isIpv6), isIpv6)
  {
    var t := Strip(answer);
    match phase
    case NewIp =>
      assert CreateStepOf(variant, devices, phase, answer, isIpv6) == NewIpAnswer(devices, t, isIpv6);
      NewIpAnswerKeeps(variant, devices, t, isIpv6);
    case NewLayer(ip, fam) =>
      assert CreateStepOf(variant, devices, phase, answer, isIpv6) == NewLayerAnswer(ip, fam, answer);
      NewLayerAnswerKeeps(variant, devices, ip, fam, answer, isIpv6);
    case NewMask(ip, l) =>
      assert CreateStepOf(variant, devices, phase, answer, isIpv6) == NewMaskAnswer(variant, ip, l, t);
      NewMaskAnswerKeeps(variant, devices, ip, l, t, isIpv6);
    case NewRetry =>
  }

  /**
   * Every configuration the create form returns is empty, or holds an address
   * that validates, is in no record, carries its own type, has a layer, and an
   * IPv4 mask the variant's validator passes (IPv6: no mask). A mask that is
   * not the class default is still returned.
   */
  lemma {:induction false} CreateRunGood(variant: Variant, devices: seq<Device>, phase: CreatePhase,
                                         answers: seq<string>, isIpv6: string -> bool)
    requires CreateInv(devices, phase, isIpv6)
    ensures match RunCreate(variant, devices, phase, answers, isIpv6)
            case Configured(v) => GoodConfig(variant, devices, v, isIpv6)
            case Pending(p) => CreateInv(devices, p, isIpv6)
            case Abandoned => true
    decreases |answers|
  {
    if answers != [] {
      CreateStepKeeps(variant, devices, phase, answers[0], isIpv6);
      var step := CreateStepOf(variant, devices, phase, answers[0], isIpv6);
      if step.CNext? {
        CreateRunGood(variant, devices, step.phase, answers[1..], isIpv6);
      }
    }
  }

  /**
   * With the intended mask validator, a record built from a configuration the
   * create form returned has consistent network fields.
   */
  lemma ConfiguredRecordConsistent(devices: seq<Device>, answers: seq<string>, isIpv6: string -> bool,
                                   kind: string, name: string, services: seq<string>, vlans: seq<Vlan>)
    requires RunCreate(Corrected, devices, NewIp, answers, isIpv6).Configured?
    ensures var v := RunCreate(Corrected, devices, NewIp, answers, isIpv6).vars;
            DeviceNetConsistent(CreateDevice(kind, name, v.ip, v.mask, v.ipType, v.layer, services, vlans))
  {
    CreateRunGood(Corrected, devices, NewIp, answers, isIpv6);
    var v := RunCreate(Corrected, devices, NewIp, answers, isIpv6).vars;
    GoodConfigConsistent(devices, v, isIpv6);
    if v.ip.Some? {
      assert ValidateAddress(v.ip.value, isIpv6).Ok?;
      assert v.ip.value != "";
    }
    if v.mask.Some? {
      assert ValidateMask(v.mask.value) == Pass;
      assert v.mask.value != "";
    }
    CreateDeviceNetConsistent(kind, name, v.ip, v.mask, v.ipType, v.layer, services, vlans);
  }

  /** A run whose first answer moves the create form on continues from the next prompt. */
  lemma RunCreateNext(variant: Variant, devices: seq<Device>, phase: CreatePhase, p: CreatePhase,
                      answers: seq<string>, isIpv6: string -> bool)
    requires answers != [] && CreateStepOf(variant, devices, phase, answers[0], isIpv6) == CNext(p)
    ensures RunCreate(variant, devices, phase, answers, isIpv6) == RunCreate(variant, devices, p, answers[1..], isIpv6)
  {
  }

  /** An unused IPv4 address goes on to the layer menu. */
  lemma CreateAddressStep(variant: Variant, devices: seq<Device>, a: string, isIpv6: string -> bool)
    requires ValidateAddress(Strip(a), isIpv6) == Ok(V4) && !IpInUse(devices, Strip(a))
    ensures CreateStepOf(variant, devices, NewIp, a, isIpv6) == CNext(NewLayer(Strip(a), V4))
  {
    V4IsNoCommand(Strip(a), isIpv6);
  }

  /** An answer `n` with `int(n) == 1` chooses the first layer for an IPv4 address. */
  lemma CreateFirstLayerStep(variant: Variant, devices: seq<Device>, ip: string, n: string, isIpv6: string -> bool)
    requires PyInt(n) == Some(1)
    ensures CreateStepOf(variant, devices, NewLayer(ip, V4), n, isIpv6) == CNext(NewMask(ip, LayerLabels[0]))
  {
    assert MenuNumber(n, |LayerLabels|) == Some(1);
  }

  /** A mask answer other than `0` and the empty answer returns when the variant's validator passes it. */
  lemma CreateMaskStep(variant: Variant, devices: seq<Device>, ip: string, l: string, m: string, isIpv6: string -> bool)
    requires Strip(m) != "0" && Strip(m) != ""
    ensures CreateStepOf(variant, devices, NewMask(ip, l), m, isIpv6) ==
            if MaskCheck(variant, Strip(m)) == Pass then CDone(NetVars(Some(ip), Some(Strip(m)), Some("IPv4"), Some(l)))
            else CNext(NewMask(ip, l))
  {
  }

  /** An unused IPv4 address and then layer 1 bring the create form to the mask prompt. */
  lemma CreateToMask(variant: Variant, devices: seq<Device>, a: string, n: string, rest: seq<string>,
                     isIpv6: string -> bool)
    requires ValidateAddress(Strip(a), isIpv6) == Ok(V4) && !IpInUse(devices, Strip(a))
    requires PyInt(n) == Some(1)
    ensures RunCreate(variant, devices, NewIp, [a, n] + rest, isIpv6) ==
            RunCreate(variant, devices, NewMask(Strip(a), LayerLabels[0]), rest, isIpv6)
  {
    var ip := Strip(a);
    var answers := [a, n] + rest;
    assert answers[0] == a && answers[1..][0] == n && answers[1..][1..] == rest;
    CreateAddressStep(variant, devices, a, isIpv6);
    CreateFirstLayerStep(variant, devices, ip, n, isIpv6);
    RunCreateNext(variant, devices, NewIp, NewLayer(ip, V4), answers, isIpv6);
    RunCreateNext(variant, devices, NewLayer(ip, V4), NewMask(ip, LayerLabels[0]), answers[1..], isIpv6);
  }

  /** One mask answer at the mask prompt, as a run. */
  lemma CreateMaskRun(variant: Variant, devices: seq<Device>, ip: string, l: string, m: string, isIpv6: string -> bool)
    requires Strip(m) != "0" && Strip(m) != ""
    ensures RunCreate(variant, devices, NewMask(ip, l), [m], isIpv6) ==
            if MaskCheck(variant, Strip(m)) == Pass then Configured(NetVars(Some(ip), Some(Strip(m)), Some("IPv4"), Some(l)))
            else Pending(NewMask(ip, l))
  {
    CreateMaskStep(variant, devices, ip, l, m, isIpv6);
    assert [m][0] == m && [m][1..] == [];
  }

  /**
   * The mask script of the create form: an unused IPv4 address `a`, an answer
   * `n` with `int(n) == 1`, and a mask answer `m`. The form returns `m` when
   * the variant's validator passes it, and otherwise waits at the mask prompt.
   */
  lemma CreateMaskSteps(variant: Variant, devices: seq<Device>, a: string, n: string, m: string, isIpv6: string -> bool)
    requires ValidateAddress(Strip(a), isIpv6) == Ok(V4) && !IpInUse(devices, Strip(a))
    requires PyInt(n) == Some(1) && Strip(m) != "0" && Strip(m) != ""
    ensures RunCreate(variant, devices, NewIp, [a, n, m], isIpv6) ==
            if MaskCheck(variant, Strip(m)) == Pass
            then Configured(NetVars(Some(Strip(a)), Some(Strip(m)), Some("IPv4"), Some(LayerLabels[0])))
            else Pending(NewMask(Strip(a), LayerLabels[0]))
  {
    assert [a, n, m] == [a, n] + [m];
    CreateToMask(variant, devices, a, n, [m], isIpv6);
    CreateMaskRun(variant, devices, Strip(a), LayerLabels[0], m, isIpv6);
  }

  /**
   * As written, the create form returns the zero mask `00.0.0.0` beside an
   * IPv4 address, and the record built from it is not consistent; with the
   * intended validator the same answers leave the form at the mask prompt.
   */
  lemma CreateZeroMask(devices: seq<Device>, a: string, n: string, m: string, isIpv6: string -> bool,
                       kind: string, name: string, services: seq<string>, vlans: seq<Vlan>)
    requires ValidateAddress(Strip(a), isIpv6) == Ok(V4) && !IpInUse(devices, Strip(a))
    requires PyInt(n) == Some(1) && Strip(m) == "00.0.0.0"
    ensures RunCreate(AsWritten, devices, NewIp, [a, n, m], isIpv6).Configured?
    ensures var v := RunCreate(AsWritten, devices, NewIp, [a, n, m], isIpv6).vars;
            v.mask == Some("00.0.0.0") &&
            !DeviceNetConsistent(CreateDevice(kind, name, v.ip, v.mask, v.ipType, v.layer, services, vlans))
    ensures RunCreate(Corrected, devices, NewIp, [a, n, m], isIpv6).Pending?
  {
    MaskZeroSpeltOtherwise();
    CreateMaskSteps(AsWritten, devices, a, n, m, isIpv6);
    CreateMaskSteps(Corrected, devices, a, n, m, isIpv6);
  }
}
