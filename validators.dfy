/**
 * The field validators: device names (three rule sets), the service list,
 * the VLAN id and the VLAN name. A validator that returns `True` or raises
 * becomes an `Outcome`; one that returns a value becomes a `Result`.
 */
module Validators {
  import opened Wrappers
  import opened Text
  import opened Catalog

  // ---------------------------------------------------------------------------
  // Regular-expression character classes
  // ---------------------------------------------------------------------------

  /** `re.match(r'^[...]+$', s)` for the character class `ok`, on text without a final newline. */
  predicate Matches(s: string, ok: char -> bool) {
    |s| > 0 && forall i :: 0 <= i < |s| ==> ok(s[i])
  }

  /** `[a-zA-Z0-9\-\.\s_]` */
  predicate NameChar(c: char) {
    IsAlnum(c) || c == '-' || c == '.' || IsSpace(c) || c == '_'
  }

  /** `[a-zA-Z0-9\-\.\s]` */
  predicate PlainNameChar(c: char) {
    IsAlnum(c) || c == '-' || c == '.' || IsSpace(c)
  }

  /** `[a-zA-Z0-9\-\.]` */
  predicate ShortNameChar(c: char) {
    IsAlnum(c) || c == '-' || c == '.'
  }

  /** `[a-zA-Z0-9\-\s_]` */
  predicate VlanNameChar(c: char) {
    IsAlnum(c) || c == '-' || IsSpace(c) || c == '_'
  }

  const NameMaxLength: nat := 50
  const ShortNameMaxLength: nat := 30
  const VlanNameMaxLength: nat := 30

  // ---------------------------------------------------------------------------
  // Device names
  // ---------------------------------------------------------------------------

  /** Why a name validator raised. */
  datatype NameError = NameCharset | NameTooLong | NameTaken

  /**
   * The loop of `validar_nombre` from position `i` on: the first record, other
   * than the excluded one, whose lowercased name is `key`.
   */
  function FirstClash(names: seq<string>, key: string, exclude: Option<nat>, i: nat): (r: Option<nat>)
    requires i <= |names|
    ensures r.Some? ==> i <= r.value < |names| && Some(r.value) != exclude && Lower(names[r.value]) == key
    ensures r.None? ==> forall j :: i <= j < |names| && Some(j) != exclude ==> Lower(names[j]) != key
    decreases |names| - i
  {
    if i == |names| then None
    else if Some(i) == exclude then FirstClash(names, key, exclude, i + 1)
    else if Lower(names[i]) == key then Some(i)
    else FirstClash(names, key, exclude, i + 1)
  }

  /**
   * `validar_nombre(nombre, dispositivos_existentes, id_actual)` of the anchor
   * variant; `names` are the records' `NOMBRE` values and `exclude` is `id_actual`.
   */
  function ValidateName(name: string, names: seq<string>, exclude: Option<nat>): (r: Outcome<NameError>)
    ensures r == Pass <==>
            Matches(name, NameChar) && |name| <= NameMaxLength &&
            forall j :: 0 <= j < |names| && Some(j) != exclude ==> Lower(names[j]) != Lower(name)
    ensures r == Fail(NameCharset) <==> !Matches(name, NameChar)
    ensures r == Fail(NameTooLong) <==> Matches(name, NameChar) && |name| > NameMaxLength
  {
    if !Matches(name, NameChar) then Fail(NameCharset)
    else if |name| > NameMaxLength then Fail(NameTooLong)
    else if FirstClash(names, Lower(name), exclude, 0).Some? then Fail(NameTaken)
    else Pass
  }

  /** The excluded record is invisible: whatever name it holds, the verdict is the same. */
  lemma NameExclusionIgnoresRecord(name: string, names: seq<string>, i: nat, other: string)
    requires i < |names|
    ensures ValidateName(name, names[i := other], Some(i)) == ValidateName(name, names, Some(i))
  {
    var r1 := ValidateName(name, names[i := other], Some(i));
    var r2 := ValidateName(name, names, Some(i));
    if r1 == Fail(NameTaken) || r2 == Fail(NameTaken) {
      assert forall j :: 0 <= j < |names| && j != i ==> names[i := other][j] == names[j];
    }
  }

  /** No record but `i` holds `key` exactly when no record of the list without `i` does. */
  lemma NoOtherHolds(names: seq<string>, i: nat, rest: seq<string>, key: string)
    requires i < |names| && rest == names[..i] + names[i + 1..]
    ensures (forall j :: 0 <= j < |names| && Some(j) != Some(i) ==> Lower(names[j]) != key) <==>
            (forall k :: 0 <= k < |rest| ==> Lower(rest[k]) != key)
  {
    forall k | 0 <= k < |rest|
      ensures rest[k] == names[if k < i then k else k + 1]
    {
    }
    if exists j :: 0 <= j < |names| && Some(j) != Some(i) && Lower(names[j]) == key {
      var j :| 0 <= j < |names| && Some(j) != Some(i) && Lower(names[j]) == key;
      assert rest[if j < i then j else j - 1] == names[j];
    }
  }

  /** Excluding record `i` is the same as checking against the list without it. */
  lemma NameExclusionIsRemoval(name: string, names: seq<string>, i: nat)
    requires i < |names|
    ensures ValidateName(name, names, Some(i)) == ValidateName(name, names[..i] + names[i + 1..], None)
  {
    NoOtherHolds(names, i, names[..i] + names[i + 1..], Lower(name));
  }

  /** An edit that keeps its own name passes only thanks to the exclusion; without it the record clashes with itself. */
  lemma NameSelfClash(names: seq<string>, i: nat)
    requires i < |names|
    requires ValidateName(names[i], names, Some(i)) == Pass
    ensures ValidateName(names[i], names, None) == Fail(NameTaken)
  {
  }

  /** `validar_nombre` of the second dictionary-based variant: no underscore, no uniqueness test. */
  function ValidatePlainName(name: string): (r: Outcome<NameError>)
    ensures r == Pass <==> Matches(name, PlainNameChar) && |name| <= NameMaxLength
    ensures r != Fail(NameTaken)
  {
    if !Matches(name, PlainNameChar) then Fail(NameCharset)
    else if |name| > NameMaxLength then Fail(NameTooLong)
    else Pass
  }

  /** The separate uniqueness test of that variant's create flow: any record with the same lowercased name. */
  predicate NameInUse(name: string, names: seq<string>) {
    exists j :: 0 <= j < |names| && Lower(names[j]) == Lower(name)
  }

  /**
   * The second variant's two-step name check accepts exactly the names the
   * anchor's validator accepts with no exclusion, less those with an underscore.
   */
  lemma PlainNameCheckIff(name: string, names: seq<string>)
    ensures ValidatePlainName(name) == Pass && !NameInUse(name, names) <==>
            ValidateName(name, names, None) == Pass && '_' !in name
  {
    if Matches(name, NameChar) && '_' !in name {
      forall i | 0 <= i < |name| ensures PlainNameChar(name[i]) {
        assert name[i] != '_';
      }
    }
    if Matches(name, PlainNameChar) {
      assert forall i :: 0 <= i < |name| ==> name[i] != '_';
    }
  }

  /** `validar_nombre` of the line-based variant: no whitespace, no underscore, at most 30 characters. */
  function ValidateShortName(name: string): (r: Outcome<NameError>)
    ensures r == Pass <==> Matches(name, ShortNameChar) && |name| <= ShortNameMaxLength
    ensures r != Fail(NameTaken)
  {
    if !Matches(name, ShortNameChar) then Fail(NameCharset)
    else if |name| > ShortNameMaxLength then Fail(NameTooLong)
    else Pass
  }

  /** Every name of the line-based variant is also a name of both dictionary-based variants. */
  lemma ShortNameIsName(name: string)
    requires ValidateShortName(name) == Pass
    ensures ValidatePlainName(name) == Pass
    ensures ValidateName(name, [], None) == Pass
    ensures !HasSpace(name)
  {
  }

  // ---------------------------------------------------------------------------
  // Services
  // ---------------------------------------------------------------------------

  /** `validar_servicios`: the first entry that is not a catalogue label, if any. */
  function ValidateServices(services: seq<string>): (r: Outcome<string>)
    ensures r == Pass <==> forall i :: 0 <= i < |services| ==> services[i] in ServiceLabels
    ensures r.Fail? ==> r.error in services && r.error !in ServiceLabels
    ensures r.Fail? ==> exists i :: 0 <= i < |services| && services[i] == r.error &&
                                   forall j :: 0 <= j < i ==> services[j] in ServiceLabels
  {
    if services == [] then Pass
    else if services[0] !in ServiceLabels then Fail(services[0])
    else
      var r := ValidateServices(services[1..]);
      ValidateServicesStep(services, r);
      r
  }

  /** The verdict on a list whose head is a label carries over from its tail. */
  lemma ValidateServicesStep(services: seq<string>, r: Outcome<string>)
    requires |services| > 0 && services[0] in ServiceLabels
    requires r == Pass <==> forall i :: 0 <= i < |services[1..]| ==> services[1..][i] in ServiceLabels
    requires r.Fail? ==> exists i :: 0 <= i < |services[1..]| && services[1..][i] == r.error &&
                                   forall j :: 0 <= j < i ==> services[1..][j] in ServiceLabels
    ensures r == Pass <==> forall i :: 0 <= i < |services| ==> services[i] in ServiceLabels
    ensures r.Fail? ==> exists i :: 0 <= i < |services| && services[i] == r.error &&
                                   forall j :: 0 <= j < i ==> services[j] in ServiceLabels
  {
    var tail := services[1..];
    assert forall j :: 0 < j < |services| ==> services[j] == tail[j - 1];
    if r.Fail? {
      var i :| 0 <= i < |tail| && tail[i] == r.error && forall j :: 0 <= j < i ==> tail[j] in ServiceLabels;
      assert services[i + 1] == r.error;
    }
    if forall i :: 0 <= i < |tail| ==> tail[i] in ServiceLabels {
      assert forall i :: 0 <= i < |services| ==> services[i] in ServiceLabels;
    }
  }

  // ---------------------------------------------------------------------------
  // VLAN ids and names
  // ---------------------------------------------------------------------------

  datatype VlanIdError = VlanIdNotNumber | VlanIdOutOfRange

  /** `validar_vlan_id`: strip, require `isdigit()`, read with `int()`, require 1-4094. */
  function ValidateVlanId(raw: string): (r: Result<nat, VlanIdError>)
    ensures r == Err(VlanIdNotNumber) <==> !IsDigitString(Strip(raw))
    ensures r.Ok? ==> PyInt(Strip(raw)) == Some(r.value as int) && VlanIdMin <= r.value <= VlanIdMax
    ensures r == Err(VlanIdOutOfRange) ==>
            IsDigitString(Strip(raw)) && PyInt(Strip(raw)) == Some(DigitsValue(Strip(raw)) as int) &&
            !(VlanIdMin <= DigitsValue(Strip(raw)) <= VlanIdMax)
  {
    var t := Strip(raw);
    if !IsDigitString(t) then Err(VlanIdNotNumber)
    else
      PyIntOfDigits(t);
      var v := DigitsValue(t);
      if !(VlanIdMin <= v <= VlanIdMax) then Err(VlanIdOutOfRange) else Ok(v)
  }

  /** Every id of the range is accepted in its decimal form, and read back as itself. */
  lemma VlanIdRoundTrip(v: nat)
    requires VlanIdMin <= v <= VlanIdMax
    ensures ValidateVlanId(NatToString(v)) == Ok(v)
  {
    var s := NatToString(v);
    DigitsHaveNoSpace(s);
    StripSpaceFree(s);
    NatToStringValue(v);
  }

  datatype VlanNameError = VlanNameCharset | VlanNameTooLong

  /** A stored VLAN name: over `[a-zA-Z0-9\-\s_]`, at most 30 characters, no surrounding whitespace. */
  predicate IsVlanName(n: string) {
    Matches(n, VlanNameChar) && |n| <= VlanNameMaxLength && Strip(n) == n
  }

  /** `validar_vlan_nombre`, whose answer to blank input is `empty`. */
  function CheckVlanName(raw: string, empty: string): (r: Result<string, VlanNameError>)
    ensures Strip(raw) == [] ==> r == Ok(empty)
    ensures Strip(raw) != [] && r.Ok? ==> r.value == Strip(raw) && IsVlanName(r.value)
    ensures Strip(raw) != [] && r.Err? <==> Strip(raw) != [] && !IsVlanName(Strip(raw))
  {
    var t := Strip(raw);
    StripIdempotent(raw);
    if t == [] then Ok(empty)
    else if !Matches(t, VlanNameChar) then Err(VlanNameCharset)
    else if |t| > VlanNameMaxLength then Err(VlanNameTooLong)
    else Ok(t)
  }

  /** The anchor's VLAN-name validator: blank input yields `VLAN_1`. */
  function ValidateVlanName(raw: string): Result<string, VlanNameError> {
    CheckVlanName(raw, DefaultVlanName(VlanIdMin))
  }

  /** The second variant's VLAN-name validator: blank input yields `N/A`. */
  function ValidatePlainVlanName(raw: string): Result<string, VlanNameError> {
    CheckVlanName(raw, "N/A")
  }

  /** The two VLAN-name validators differ only on blank input. */
  lemma VlanNameVariantsAgree(raw: string)
    ensures Strip(raw) != [] ==> ValidateVlanName(raw) == ValidatePlainVlanName(raw)
    ensures Strip(raw) == [] ==> ValidateVlanName(raw) == Ok("VLAN_1") && ValidatePlainVlanName(raw) == Ok("N/A")
  {
    assert DigitChar(1) == '1';
    assert NatToString(1) == "1";
    assert DefaultVlanName(VlanIdMin) == "VLAN_1";
  }

  /** A name the validator returns is returned unchanged when validated again. */
  lemma VlanNameIdempotent(raw: string, empty: string)
    requires Strip(raw) != [] && CheckVlanName(raw, empty).Ok?
    ensures CheckVlanName(CheckVlanName(raw, empty).value, empty) == CheckVlanName(raw, empty)
  {
    StripIdempotent(raw);
  }

  /** The name callers substitute for a blank answer: `f"VLAN_{v_id}"`. */
  function DefaultVlanName(id: nat): (n: string)
    ensures |n| > 5 && n[..5] == "VLAN_" && n[5..] == NatToString(id)
  {
    "VLAN_" + NatToString(id)
  }

  /** Distinct ids get distinct default names. */
  lemma DefaultVlanNameInjective(a: nat, b: nat)
    ensures DefaultVlanName(a) == DefaultVlanName(b) ==> a == b
  {
    if DefaultVlanName(a) == DefaultVlanName(b) {
      assert NatToString(a) == DefaultVlanName(a)[5..];
      NatToStringValue(a);
      NatToStringValue(b);
    }
  }

  /** The default name of an id in range is itself a valid VLAN name. */
  lemma DefaultVlanNameValid(id: nat)
    requires VlanIdMin <= id <= VlanIdMax
    ensures IsVlanName(DefaultVlanName(id))
  {
    var n := DefaultVlanName(id);
    var d := NatToString(id);
    assert Pow10(4) == 10000;
    NatToStringLength(id, 4);
    forall i | 0 <= i < |n| ensures VlanNameChar(n[i]) {
      if i >= 5 {
        assert n[i] == d[i - 5];
      }
    }
    assert !IsSpace(n[0]) && !IsSpace(n[|n| - 1]);
  }

  /**
   * The VLAN name the add paths store (edit session, VLAN menu, create flow):
   * the stripped answer if it is not blank and validates, `VLAN_<id>` if it is blank.
   */
  function VlanNameFor(raw: string, id: nat): (r: Result<string, VlanNameError>)
    ensures VlanIdMin <= id <= VlanIdMax && r.Ok? ==> IsVlanName(r.value)
    ensures Strip(raw) == [] ==> r == Ok(DefaultVlanName(id))
    ensures Strip(raw) != [] ==> r == ValidateVlanName(raw) && r == ValidatePlainVlanName(raw)
  {
    var t := Strip(raw);
    StripIdempotent(raw);
    if t == [] then
      (if VlanIdMin <= id <= VlanIdMax then DefaultVlanNameValid(id); Ok(DefaultVlanName(id))
       else Ok(DefaultVlanName(id)))
    else ValidateVlanName(t)
  }
}
