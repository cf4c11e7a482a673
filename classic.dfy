/**
 * The library-free variant (`lacodiga.py`): its own address validator, the
 * class lookup that raises, the address dialogue that insists on the class
 * default mask, records kept as rendered text lines, the line edit that adds
 * a service, the interactive service collection and the delete dialogue.
 */
module Classic {
  import opened Wrappers
  import opened Text
  import opened Ipv4
  import opened Catalog
  import opened Validators
  import Inventory

  // ---------------------------------------------------------------------------
  // Address validation
  // ---------------------------------------------------------------------------

  /**
   * Why `validar_ip` raised: the text is not four groups of one to three digits,
   * an octet is above 255 (its error is caught and re-raised as "not a valid
   * number"), or the first octet lies in a reserved block.
   */
  datatype IpCause = IpShape | OctetNotNumber | ReservedFirst(block: Reserved)

  /**
   * `validar_ip`: no stripping, the regular expression, the octet range, the
   * reserved first octets in order, and the final `255.255.255.255` test.
   */
  function ValidateIp(ip: string): Outcome<IpCause> {
    if !IsQuadShape(ip) then Fail(IpShape)
    else if !OctetsInRange(QuadValues(ip)) then Fail(OctetNotNumber)
    else
      match ReservedBlockOf(QuadValues(ip)[0])
      case Some(block) => Fail(ReservedFirst(block))
      case None => if ip == "255.255.255.255" then Fail(ReservedFirst(Broadcast)) else Pass
  }

  /**
   * The validator accepts exactly the dotted quads of one to three digits with
   * every octet at most 255 and a first octet in 1-126 or 128-223; an octet
   * above 255 is refused as not a number.
   */
  lemma ValidateIpIff(ip: string)
    ensures ValidateIp(ip) == Pass <==>
            IsQuadShape(ip) && OctetsInRange(QuadValues(ip)) &&
            (1 <= QuadValues(ip)[0] <= 126 || 128 <= QuadValues(ip)[0] <= 223)
    ensures ValidateIp(ip) == Fail(OctetNotNumber) <==> IsQuadShape(ip) && !OctetsInRange(QuadValues(ip))
    ensures ValidateIp(ip) != Fail(ReservedFirst(Broadcast))
  {
    if IsQuadShape(ip) {
      BroadcastFirstOctet(ip);
    }
  }

  /** Every address the library-based validator accepts as IPv4 passes this one, on the stripped text. */
  lemma LibraryAddressAccepted(raw: string, isIpv6: string -> bool)
    requires ValidateAddress(raw, isIpv6) == Ok(V4)
    ensures ValidateIp(Strip(raw)) == Pass
  {
    var t := Strip(raw);
    ValidateAddressV4Iff(raw, isIpv6);
    IpTextIsQuad(t);
    ValidateIpIff(t);
  }

  /** An address whose first field has a leading zero passes this validator and is not library IPv4 text. */
  lemma LeadingZeroText(ip: string)
    requires IsQuadShape(ip) && OctetsInRange(QuadValues(ip)) && 1 <= QuadValues(ip)[0] <= 126
    requires Split(ip, '.')[0][0] == '0'
    ensures ValidateIp(ip) == Pass && !IsIpv4Text(ip)
  {
    ValidateIpIff(ip);
    SingleZeroValue(Split(ip, '.')[0]);
  }

  lemma SingleZeroValue(a: string)
    requires IsDigitString(a)
    ensures |a| == 1 && a[0] == '0' ==> DigitsValue(a) == 0
  {
    if |a| == 1 {
      assert a[..0] == [];
    }
  }

  /** The values of a dotted quad are those of its fields. */
  lemma QuadValuesOfFields(s: string, p: seq<string>)
    requires IsQuadShape(s) && Split(s, '.') == p
    ensures QuadValues(s) == [DigitsValue(p[0]), DigitsValue(p[1]), DigitsValue(p[2]), DigitsValue(p[3])]
  {
  }

  /** The leading-zero case stated on the fields the address splits into. */
  lemma LeadingZeroOfFields(s: string, p: seq<string>)
    requires IsQuadShape(s) && Split(s, '.') == p
    requires OctetsInRange([DigitsValue(p[0]), DigitsValue(p[1]), DigitsValue(p[2]), DigitsValue(p[3])])
    requires 1 <= DigitsValue(p[0]) <= 126 && p[0][0] == '0'
    ensures ValidateIp(s) == Pass && !IsIpv4Text(s)
  {
    QuadValuesOfFields(s, p);
    LeadingZeroText(s);
  }

  /**
   * The text that splits into `010`, `0`, `0`, `1` (that is, `010.0.0.1`)
   * passes this validator but is not library IPv4 text, so the converse fails.
   */
  lemma LeadingZeroAccepted(ip: string)
    requires Split(ip, '.') == ["010", "0", "0", "1"]
    ensures ValidateIp(ip) == Pass && !IsIpv4Text(ip)
  {
    assert "010"[..2] == "01" && "01"[..1] == "0";
    DigitValues();
    assert DigitsValue("010") == 10 && DigitsValue("1") == 1;
    LeadingZeroOfFields(ip, ["010", "0", "0", "1"]);
  }

  // ---------------------------------------------------------------------------
  // The class lookup
  // ---------------------------------------------------------------------------

  /** The lookup raises when the first field is not an integer. */
  datatype ClassError = FirstFieldNotInteger

  /** `obtener_clase_y_mascara_predeterminada`: `int()` of the first field, then the class table. */
  function ClassLookup(ip: string): (r: Result<Option<(IpClass, string)>, ClassError>)
    ensures r.Err? <==> PyInt(Split(ip, '.')[0]).None?
    ensures r.Ok? ==> r.value == ClassOf(PyInt(Split(ip, '.')[0]).value) && r.value == ClassDefault(ip)
  {
    match PyInt(Split(ip, '.')[0])
    case None => Err(FirstFieldNotInteger)
    case Some(first) => Ok(ClassOf(first))
  }

  /** On an accepted address the lookup does not raise and always finds a class. */
  lemma AcceptedIpHasClass(ip: string)
    requires ValidateIp(ip) == Pass
    ensures IsQuadShape(ip) && ClassLookup(ip) == Ok(ClassOf(FirstOctet(ip)))
    ensures ClassOf(FirstOctet(ip)).Some?
  {
    ValidateIpIff(ip);
    ClassDefaultOfQuad(ip);
    QuadValuesAreInts(ip);
  }

  // ---------------------------------------------------------------------------
  // The address dialogue
  // ---------------------------------------------------------------------------

  /** The prompt `ingresar_ip_y_mascara` is at: the address, the mask for an accepted address, or the retry question. */
  datatype AddressPhase = AskAddress | AskNetmask(ip: string) | AskAgain

  /** One answer moves the dialogue on or returns its pair; `None` stands for Python's `None`. */
  datatype AddressStep = Go(phase: AddressPhase) | Give(ip: Option<string>, mask: Option<string>)

  datatype AddressRun = Given(ip: Option<string>, mask: Option<string>) | Waiting(phase: AddressPhase)

  /** A stripped answer at the address prompt: empty skips both values, a valid address asks for its mask. */
  function AddressAnswer(t: string): AddressStep {
    if t == "" then Give(None, None)
    else if ValidateIp(t) == Pass then Go(AskNetmask(t))
    else Go(AskAgain)
  }

  /**
   * A stripped answer at the mask prompt. An empty mask asks again. A lookup
   * that raises is raised once more by the mask handler and lands in the
   * address handler, which asks whether to retry. An invalid mask, or one that
   * is not the default of the address's class, asks for the mask again.
   */
  function NetmaskAnswer(ip: string, m: string): AddressStep {
    if m == "" then Go(AskNetmask(ip))
    else
      match ClassLookup(ip)
      case Err(_) => Go(AskAgain)
      case Ok(cls) =>
        if ValidateMaskAsWritten(m) != Pass then Go(AskNetmask(ip))
        else if cls.Some? && m != cls.value.1 then Go(AskNetmask(ip))
        else Give(Some(ip), Some(m))
  }

  /** One answer, stripped and handled by the prompt the dialogue is at; the retry answer is also lowercased. */
  function AddressStepOf(phase: AddressPhase, answer: string): AddressStep {
    var t := Strip(answer);
    match phase
    case AskAddress => AddressAnswer(t)
    case AskNetmask(ip) => NetmaskAnswer(ip, t)
    case AskAgain => if Lower(t) != "s" then Give(None, None) else Go(AskAddress)
  }

  function RunAddress(phase: AddressPhase, answers: seq<string>): AddressRun
    decreases |answers|
  {
    if answers == [] then Waiting(phase)
    else
      match AddressStepOf(phase, answers[0])
      case Give(ip, m) => Given(ip, m)
      case Go(p) => RunAddress(p, answers[1..])
  }

  /** Plays a script through `ingresar_ip_y_mascara`, one answer per iteration. */
  method PlayAddress(answers: seq<string>) returns (r: AddressRun)
    ensures r == RunAddress(AskAddress, answers)
  {
    var phase := AskAddress;
    var i := 0;
    while i < |answers|
      invariant 0 <= i <= |answers|
      invariant RunAddress(phase, answers[i..]) == RunAddress(AskAddress, answers)
    {
      assert answers[i..][0] == answers[i] && answers[i..][1..] == answers[i + 1..];
      var step := AddressStepOf(phase, answers[i]);
      if step.Give? {
        return Given(step.ip, step.mask);
      }
      phase := step.phase;
      i := i + 1;
    }
    r := Waiting(phase);
  }

  /** The mask prompt is reached only with an accepted address. */
  predicate AddressInv(phase: AddressPhase) {
    match phase
    case AskNetmask(ip) => ValidateIp(ip) == Pass
    case _ => true
  }

  /**
   * A returned pair: both absent, or an accepted address of class A, B or C
   * with exactly its class default mask, which passes the mask validator.
   */
  predicate GoodPair(ip: Option<string>, mask: Option<string>) {
    (ip.None? && mask.None?) ||
    (ip.Some? && mask.Some? && ValidateIp(ip.value) == Pass && IsQuadShape(ip.value) &&
     ClassOf(FirstOctet(ip.value)).Some? && mask.value == ClassOf(FirstOctet(ip.value)).value.1 &&
     ValidateMask(mask.value) == Pass)
  }

  /**
   * For an accepted address, a mask answer returns the pair exactly when it is
   * the class default; every other answer asks for the mask again.
   */
  lemma NetmaskAnswerIff(ip: string, m: string)
    requires ValidateIp(ip) == Pass
    ensures IsQuadShape(ip) && ClassOf(FirstOctet(ip)).Some?
    ensures NetmaskAnswer(ip, m) == Give(Some(ip), Some(m)) <==> m == ClassOf(FirstOctet(ip)).value.1
    ensures NetmaskAnswer(ip, m) != Give(Some(ip), Some(m)) ==> NetmaskAnswer(ip, m) == Go(AskNetmask(ip))
  {
    AcceptedIpHasClass(ip);
    ClassMasksValid(FirstOctet(ip));
  }

  lemma AddressStepKeeps(phase: AddressPhase, answer: string)
    requires AddressInv(phase)
    ensures match AddressStepOf(phase, answer)
            case Go(p) => AddressInv(p)
            case Give(ip, m) => GoodPair(ip, m)
  {
    var t := Strip(answer);
    match phase
    case AskAddress =>
    case AskNetmask(ip) =>
      assert AddressStepOf(phase, answer) == NetmaskAnswer(ip, t);
      NetmaskAnswerIff(ip, t);
      ClassMasksValid(FirstOctet(ip));
    case AskAgain =>
  }

  /**
   * Every pair `ingresar_ip_y_mascara` returns is empty, or an accepted address
   * with its class default mask (255.0.0.0, 255.255.0.0 or 255.255.255.0).
   */
  lemma {:induction false} AddressRunGood(phase: AddressPhase, answers: seq<string>)
    requires AddressInv(phase)
    ensures match RunAddress(phase, answers)
            case Given(ip, m) => GoodPair(ip, m)
            case Waiting(p) => AddressInv(p)
    decreases |answers|
  {
    if answers != [] {
      AddressStepKeeps(phase, answers[0]);
      var step := AddressStepOf(phase, answers[0]);
      if step.Go? {
        AddressRunGood(step.phase, answers[1..]);
      }
    }
  }

  /** The defaults of the three classes are the only masks a returned pair can hold. */
  lemma GoodPairMasks(ip: Option<string>, mask: Option<string>)
    requires GoodPair(ip, mask) && mask.Some?
    ensures mask.value == "255.0.0.0" || mask.value == "255.255.0.0" || mask.value == "255.255.255.0"
  {
  }

  // ---------------------------------------------------------------------------
  // Collecting services in the interactive add
  // ---------------------------------------------------------------------------

  /** The extra entry of the service menu that ends the collection. */
  const FinishLabel: string := "\U{1F3C1} Terminar de agregar servicios"

  /** The menu picks before the first `Terminar` (all of them if it is never picked). */
  function FirstRound(picks: seq<string>): (r: seq<string>)
    ensures |r| <= |picks| && r == picks[..|r|] && FinishLabel !in r
    ensures |r| < |picks| ==> picks[|r|] == FinishLabel
    decreases |picks|
  {
    if picks == [] || picks[0] == FinishLabel then []
    else
      var rest := FirstRound(picks[1..]);
      assert picks[..|rest| + 1] == [picks[0]] + picks[1..][..|rest|];
      [picks[0]] + rest
  }

  predicate NoRepeats(s: seq<string>) {
    forall i, j :: 0 <= i < j < |s| ==> s[i] != s[j]
  }

  /** Each element once, in the order of its first occurrence. */
  function Distinct(s: seq<string>): (r: seq<string>)
    decreases |s|
  {
    if s == [] then []
    else
      var d := Distinct(s[..|s| - 1]);
      if s[|s| - 1] in d then d else d + [s[|s| - 1]]
  }

  /** `Distinct` keeps every element and repeats none. */
  lemma {:induction false} DistinctSpec(s: seq<string>)
    ensures NoRepeats(Distinct(s))
    ensures forall x :: x in Distinct(s) <==> x in s
    decreases |s|
  {
    if s != [] {
      var init := s[..|s| - 1];
      DistinctSpec(init);
      assert s == init + [s[|s| - 1]];
    }
  }

  /** A scan that stops at the first `Terminar` (or the end) has read exactly the first round. */
  lemma {:induction false} FirstRoundIs(picks: seq<string>, i: nat)
    requires i <= |picks| && FinishLabel !in picks[..i]
    requires i == |picks| || picks[i] == FinishLabel
    ensures FirstRound(picks) == picks[..i]
    decreases i
  {
    if i > 0 {
      assert picks[0] == picks[..i][0];
      assert picks[1..][..i - 1] == picks[1..i];
      FirstRoundIs(picks[1..], i - 1);
    }
  }

  /**
   * The service loop of the interactive add: picks are read until `Terminar`,
   * and a pick already chosen is only warned about. The list holds each
   * chosen label once, in the order first picked.
   */
  method CollectServices(picks: seq<string>) returns (chosen: seq<string>)
    requires forall i :: 0 <= i < |picks| ==> picks[i] in ServiceLabels || picks[i] == FinishLabel
    ensures chosen == Distinct(FirstRound(picks))
    ensures NoRepeats(chosen)
    ensures forall x :: x in chosen <==> x in FirstRound(picks)
    ensures forall x :: x in chosen ==> x in ServiceLabels
  {
    chosen := [];
    var i := 0;
    while i < |picks| && picks[i] != FinishLabel
      invariant 0 <= i <= |picks|
      invariant FinishLabel !in picks[..i]
      invariant chosen == Distinct(picks[..i])
    {
      assert picks[..i + 1][..i] == picks[..i];
      if picks[i] !in chosen {
        chosen := chosen + [picks[i]];
      }
      i := i + 1;
    }
    FirstRoundIs(picks, i);
    DistinctSpec(picks[..i]);
  }
}
