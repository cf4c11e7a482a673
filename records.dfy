/**
 * Device records of the dictionary-based variants: the record value, the
 * serialiser `crear_dispositivo_dict`, the `SERVICIOS` string and the
 * `VLANS` list rules, and the duplicate-IP predicates.
 */
module Records {
  import opened Wrappers
  import opened Text
  import opened Ipv4
  import opened Catalog
  import opened Validators

  // ---------------------------------------------------------------------------
  // The record
  // ---------------------------------------------------------------------------

  /**
   * One optional key of a record's dictionary. A key that is absent and a key
   * present with `None` are different dictionaries (the edit session writes
   * `None` values and compares dictionaries), so both are kept apart.
   */
  datatype Slot = Absent | Null | Str(value: string)

  /** `d.get(key)`: `None` for an absent key and for a `None` value. */
  function Get(s: Slot): (r: Option<string>)
    ensures r.Some? <==> s.Str?
  {
    if s.Str? then Some(s.value) else None
  }

  /** Writing a Python value `x` (possibly `None`) under a key. */
  function Put(x: Option<string>): (s: Slot)
    ensures Get(s) == x && s != Absent
  {
    if x.Some? then Str(x.value) else Null
  }

  /** Python truthiness of an optional string: present and not empty. */
  predicate Truthy(x: Option<string>) {
    x.Some? && x.value != ""
  }

  /** A VLAN entry `{"id": ..., "nombre": ...}`. */
  datatype Vlan = Vlan(id: nat, name: string)

  /**
   * A record: `TIPO`, `NOMBRE`, `SERVICIOS` and `VLANS` are always present in
   * the records the program builds; `IP`, `IP_TYPE`, `MÁSCARA` and `CAPA` may be
   * absent or hold `None`.
   */
  datatype Device = Device(
    kind: string,
    name: string,
    ip: Slot,
    ipType: Slot,
    mask: Slot,
    layer: Slot,
    services: string,
    vlans: seq<Vlan>)

  /** The names of a collection, as `validar_nombre` reads them. */
  function Names(devices: seq<Device>): (r: seq<string>)
    ensures |r| == |devices| && forall i :: 0 <= i < |r| ==> r[i] == devices[i].name
  {
    seq(|devices|, i requires 0 <= i < |devices| => devices[i].name)
  }

  // ---------------------------------------------------------------------------
  // VLAN lists
  // ---------------------------------------------------------------------------

  predicate SortedById(xs: seq<Vlan>) {
    forall i, j :: 0 <= i < j < |xs| ==> xs[i].id <= xs[j].id
  }

  predicate UniqueIds(xs: seq<Vlan>) {
    forall i, j :: 0 <= i < j < |xs| ==> xs[i].id != xs[j].id
  }

  predicate HasVlanId(xs: seq<Vlan>, id: nat) {
    exists i :: 0 <= i < |xs| && xs[i].id == id
  }

  /** Inserts `v` after every entry whose id is not larger: one step of a stable sort. */
  function InsertById(v: Vlan, xs: seq<Vlan>): (r: seq<Vlan>)
    requires SortedById(xs)
    ensures SortedById(r)
    ensures multiset(r) == multiset(xs) + multiset{v}
    ensures |r| == |xs| + 1
    ensures r[0] == (if xs == [] || v.id < xs[0].id then v else xs[0])
  {
    if xs == [] then [v]
    else if v.id < xs[0].id then [v] + xs
    else
      var rest := InsertById(v, xs[1..]);
      assert xs == [xs[0]] + xs[1..];
      assert xs[0].id <= rest[0].id;
      [xs[0]] + rest
  }

  /** `sorted(xs, key=lambda v: v['id'])`: Python's stable sort, as insertion of each entry in turn. */
  function SortById(xs: seq<Vlan>): (r: seq<Vlan>)
    ensures SortedById(r)
    ensures multiset(r) == multiset(xs)
    ensures |r| == |xs|
  {
    if xs == [] then []
    else
      assert xs == xs[..|xs| - 1] + [xs[|xs| - 1]];
      InsertById(xs[|xs| - 1], SortById(xs[..|xs| - 1]))
  }

  /** Inserting an entry whose id is not smaller than any present one appends it. */
  lemma {:induction false} InsertByIdLast(v: Vlan, xs: seq<Vlan>)
    requires SortedById(xs)
    requires forall i :: 0 <= i < |xs| ==> xs[i].id <= v.id
    ensures InsertById(v, xs) == xs + [v]
  {
    if xs != [] {
      InsertByIdLast(v, xs[1..]);
      assert xs == [xs[0]] + xs[1..];
    }
  }

  /** Sorting a list that is already sorted by id leaves it as it is (the sort is stable). */
  lemma {:induction false} SortByIdSorted(xs: seq<Vlan>)
    requires SortedById(xs)
    ensures SortById(xs) == xs
  {
    if xs != [] {
      var init := xs[..|xs| - 1];
      SortByIdSorted(init);
      InsertByIdLast(xs[|xs| - 1], init);
      assert init + [xs[|xs| - 1]] == xs;
    }
  }

  /** Membership in a list depends only on its multiset. */
  lemma HasVlanIdMultiset(xs: seq<Vlan>, ys: seq<Vlan>, id: nat)
    requires multiset(xs) == multiset(ys)
    ensures HasVlanId(xs, id) <==> HasVlanId(ys, id)
  {
    if HasVlanId(xs, id) {
      var i :| 0 <= i < |xs| && xs[i].id == id;
      assert xs[i] in multiset(ys);
    }
    if HasVlanId(ys, id) {
      var i :| 0 <= i < |ys| && ys[i].id == id;
      assert ys[i] in multiset(xs);
    }
  }

  /** Distinct ids are kept by any reordering. */
  lemma UniqueIdsMultiset(xs: seq<Vlan>, ys: seq<Vlan>)
    requires multiset(xs) == multiset(ys) && UniqueIds(xs)
    ensures UniqueIds(ys)
  {
    forall i, j | 0 <= i < j < |ys| ensures ys[i].id != ys[j].id {
      UniqueCount(xs, ys[i]);
      TwoOccurrences(ys, i, j);
      assert ys[i] in multiset(xs) && ys[j] in multiset(xs);
      var a :| 0 <= a < |xs| && xs[a] == ys[i];
      var b :| 0 <= b < |xs| && xs[b] == ys[j];
      if a < b {
        assert xs[a].id != xs[b].id;
      } else if b < a {
        assert xs[b].id != xs[a].id;
      }
    }
  }

  /** An element found at two positions occurs at least twice. */
  lemma TwoOccurrences(ys: seq<Vlan>, i: nat, j: nat)
    requires i < j < |ys|
    ensures ys[i] == ys[j] ==> multiset(ys)[ys[i]] >= 2
  {
    assert ys == ys[..j] + ys[j..];
    assert ys[i] == ys[..j][i];
    assert ys[j] == ys[j..][0];
    assert multiset(ys) == multiset(ys[..j]) + multiset(ys[j..]);
  }

  /** In a list with distinct ids every entry occurs at most once. */
  lemma {:induction false} UniqueCount(xs: seq<Vlan>, v: Vlan)
    requires UniqueIds(xs)
    ensures multiset(xs)[v] <= 1
  {
    if xs != [] {
      assert xs == [xs[0]] + xs[1..];
      assert UniqueIds(xs[1..]) by {
        forall i, j | 0 <= i < j < |xs[1..]| ensures xs[1..][i].id != xs[1..][j].id {
          assert xs[1..][i] == xs[i + 1] && xs[1..][j] == xs[j + 1];
        }
      }
      UniqueCount(xs[1..], v);
      if xs[0] == v {
        forall k | 0 <= k < |xs| - 1 ensures xs[1..][k] != v {
          assert xs[1..][k] == xs[k + 1];
          assert xs[0].id != xs[k + 1].id;
        }
        assert v !in xs[1..];
      }
    }
  }

  datatype VlanAddError = BadVlanId(idError: VlanIdError) | DuplicateVlanId | BadVlanName(nameError: VlanNameError)

  /**
   * The entry an add path builds from the answers to its two prompts: the id is
   * validated, refused if present, then the name is validated or defaulted.
   */
  function VlanEntry(vlans: seq<Vlan>, rawId: string, rawName: string): Result<Vlan, VlanAddError> {
    match ValidateVlanId(rawId)
    case Err(e) => Err(BadVlanId(e))
    case Ok(id) => if HasVlanId(vlans, id) then Err(DuplicateVlanId) else NamedEntry(id, VlanNameFor(rawName, id))
  }

  /** The entry for an accepted id once its name answer has been judged. */
  function NamedEntry(id: nat, name: Result<string, VlanNameError>): Result<Vlan, VlanAddError> {
    match name
    case Err(e) => Err(BadVlanName(e))
    case Ok(n) => Ok(Vlan(id, n))
  }

  /** An entry is built only from an accepted id that is not yet present. */
  lemma VlanEntryId(vlans: seq<Vlan>, rawId: string, rawName: string)
    requires VlanEntry(vlans, rawId, rawName).Ok?
    ensures ValidateVlanId(rawId) == Ok(VlanEntry(vlans, rawId, rawName).value.id)
    ensures !HasVlanId(vlans, VlanEntry(vlans, rawId, rawName).value.id)
  {
  }

  /** The name of a built entry is the name answer's outcome, and satisfies the VLAN name rule. */
  lemma VlanEntryName(vlans: seq<Vlan>, rawId: string, rawName: string)
    requires VlanEntry(vlans, rawId, rawName).Ok?
    ensures var v := VlanEntry(vlans, rawId, rawName).value;
            VlanNameFor(rawName, v.id) == Ok(v.name) && IsVlanName(v.name)
  {
    var idr := ValidateVlanId(rawId);
    assert idr.Ok? && VlanIdMin <= idr.value <= VlanIdMax;
    var nr := VlanNameFor(rawName, idr.value);
    assert VlanEntry(vlans, rawId, rawName) == NamedEntry(idr.value, nr);
  }

  /** An accepted id that is already present is refused as a duplicate, and only then. */
  lemma VlanEntryDuplicate(vlans: seq<Vlan>, rawId: string, rawName: string)
    ensures VlanEntry(vlans, rawId, rawName) == Err(DuplicateVlanId) <==>
            ValidateVlanId(rawId).Ok? && HasVlanId(vlans, ValidateVlanId(rawId).value)
  {
  }

  /** `vlans.append(v)` then `sorted(vlans, key=id)`. */
  function AppendSorted(vlans: seq<Vlan>, v: Vlan): (r: seq<Vlan>)
    ensures SortedById(r)
    ensures multiset(r) == multiset(vlans) + multiset{v}
  {
    SortById(vlans + [v])
  }

  /**
   * On a sorted list, appending and re-sorting places the new entry after every
   * entry with an id not above it and changes nothing else; distinct ids stay distinct.
   */
  lemma AppendSortedInserts(vlans: seq<Vlan>, v: Vlan)
    requires SortedById(vlans)
    ensures AppendSorted(vlans, v) == InsertById(v, vlans)
    ensures UniqueIds(vlans) && !HasVlanId(vlans, v.id) ==> UniqueIds(AppendSorted(vlans, v))
  {
    var xs := vlans + [v];
    assert xs[..|xs| - 1] == vlans;
    SortByIdSorted(vlans);
    if UniqueIds(vlans) && !HasVlanId(vlans, v.id) {
      assert UniqueIds(xs);
      UniqueIdsMultiset(xs, AppendSorted(vlans, v));
    }
  }

  /** `vlans.pop(pos)`. */
  function RemoveAt(vlans: seq<Vlan>, pos: nat): (r: seq<Vlan>)
    requires pos < |vlans|
    ensures |r| == |vlans| - 1
    ensures forall i :: 0 <= i < |r| ==> r[i] == (if i < pos then vlans[i] else vlans[i + 1])
  {
    vlans[..pos] + vlans[pos + 1..]
  }

  /** Popping removes exactly the entry at that position. */
  lemma RemoveAtMultiset(vlans: seq<Vlan>, pos: nat)
    requires pos < |vlans|
    ensures multiset(RemoveAt(vlans, pos)) == multiset(vlans) - multiset{vlans[pos]}
  {
    assert vlans == vlans[..pos] + [vlans[pos]] + vlans[pos + 1..];
  }

  /** Popping one entry keeps the list sorted and its ids distinct. */
  lemma RemoveAtKeeps(vlans: seq<Vlan>, pos: nat)
    requires pos < |vlans|
    ensures SortedById(vlans) ==> SortedById(RemoveAt(vlans, pos))
    ensures UniqueIds(vlans) ==> UniqueIds(RemoveAt(vlans, pos))
  {
    var r := RemoveAt(vlans, pos);
    forall i, j | 0 <= i < j < |r|
      ensures exists a, b :: 0 <= a < b < |vlans| && r[i] == vlans[a] && r[j] == vlans[b]
    {
      var a := if i < pos then i else i + 1;
      var b := if j < pos then j else j + 1;
      assert r[i] == vlans[a] && r[j] == vlans[b];
    }
  }

  // ---------------------------------------------------------------------------
  // The SERVICIOS string
  // ---------------------------------------------------------------------------

  const NoServices: string := "Ninguno"

  /** `' '.join(sorted(set(xs))) if xs else "Ninguno"`. */
  function ServicesField(xs: seq<string>): (r: string)
    ensures xs == [] ==> r == NoServices
    ensures xs != [] ==> r == Join(SortedSet(xs), " ") && SortedSet(xs) != []
  {
    if xs == [] then NoServices
    else
      assert xs[0] in SortedSet(xs);
      Join(SortedSet(xs), " ")
  }

  /** The stored string depends only on which services occur, not on their order or repeats. */
  lemma ServicesFieldCanonical(xs: seq<string>, ys: seq<string>)
    requires forall y :: y in xs <==> y in ys
    ensures ServicesField(xs) == ServicesField(ys)
  {
    SortedSetCanonical(xs, ys);
    if xs != [] {
      assert xs[0] in ys;
    }
    if ys != [] {
      assert ys[0] in xs;
    }
  }

  /** The piece `p` of a split is kept as a token: it is not blank and it is not `Ninguno`. */
  predicate Kept(p: string) {
    Strip(p) != [] && p != NoServices
  }

  /**
   * The `[s.strip() for s in parts if s.strip() and s != "Ninguno"]` filter:
   * the tokens are exactly the stripped pieces that are kept, and there are no
   * more of them than pieces.
   */
  function KeepTokens(parts: seq<string>): (r: seq<string>)
    ensures |r| <= |parts|
    ensures forall x :: x in r <==> exists p :: p in parts && Kept(p) && x == Strip(p)
  {
    if parts == [] then []
    else
      var rest := KeepTokens(parts[1..]);
      assert forall p :: p in parts <==> p == parts[0] || p in parts[1..];
      if Kept(parts[0]) then [Strip(parts[0])] + rest else rest
  }

  /** How the program reads a `SERVICIOS` string back: non-empty tokens without spaces. */
  function ParseServices(field: string): (r: seq<string>)
    ensures forall i :: 0 <= i < |r| ==> r[i] != [] && ' ' !in r[i]
  {
    var parts := Split(field, ' ');
    SplitPiecesFree(field, ' ');
    var r := KeepTokens(parts);
    assert forall i :: 0 <= i < |r| ==> r[i] != [] && ' ' !in r[i] by {
      forall i | 0 <= i < |r| ensures r[i] != [] && ' ' !in r[i] {
        assert r[i] in r;
        var p :| p in parts && Kept(p) && r[i] == Strip(p);
        StripChars(p);
      }
    }
    r
  }

  /**
   * The tokens read back are exactly the space-separated pieces of the field,
   * stripped, less the blank ones and `Ninguno`.
   */
  lemma ParseServicesTokens(field: string)
    ensures forall x :: x in ParseServices(field) <==> exists p :: p in Split(field, ' ') && Kept(p) && x == Strip(p)
  {
    var r := KeepTokens(Split(field, ' '));
    assert ParseServices(field) == r;
  }

  /** Every catalogue label contains a space. */
  lemma LabelsHaveSpace()
    ensures forall l :: l in ServiceLabels ==> ' ' in l
  {
    assert ServiceLabels[0][1] == ' ';
    assert ServiceLabels[1][1] == ' ';
    assert ServiceLabels[2][2] == ' ';
    assert ServiceLabels[3][2] == ' ';
    assert ServiceLabels[4][2] == ' ';
    assert ServiceLabels[5][2] == ' ';
  }

  /**
   * No catalogue label is ever among the parsed tokens, so the menu of services
   * "not yet present" always offers all six labels and the "all services
   * present" branch cannot be taken.
   */
  lemma ServiceMenuAlwaysFull(field: string)
    ensures forall l :: l in ServiceLabels ==> l !in ParseServices(field)
  {
    LabelsHaveSpace();
  }

  /** The string stored after adding `svc` to the parsed token list. */
  function AddServiceField(tokens: seq<string>, svc: string): (r: string)
    ensures r == Join(SortedSet(tokens + [svc]), " ")
    ensures svc in SortedSet(tokens + [svc])
  {
    assert svc == (tokens + [svc])[|tokens|];
    ServicesField(tokens + [svc])
  }

  /** Adding a service stores each old token and the new service exactly once, in increasing order. */
  lemma AddServiceFieldMembers(tokens: seq<string>, svc: string)
    ensures var xs := SortedSet(tokens + [svc]);
            AddServiceField(tokens, svc) == Join(xs, " ") && StrictlySorted(xs) &&
            forall y :: y in xs <==> y == svc || y in tokens
  {
  }

  /** `list.remove(x)`: drops the first occurrence. */
  function RemoveFirst(xs: seq<string>, x: string): (r: seq<string>)
    requires x in xs
    ensures |r| == |xs| - 1
    ensures multiset(r) == multiset(xs) - multiset{x}
  {
    if xs[0] == x then
      assert xs == [xs[0]] + xs[1..];
      xs[1..]
    else
      assert xs == [xs[0]] + xs[1..];
      [xs[0]] + RemoveFirst(xs[1..], x)
  }

  /**
   * The string stored after removing `x` from the parsed token list; `None`
   * when `x` is not in the list (the second variant's explicit test).
   */
  function RemoveServiceField(tokens: seq<string>, x: string): (r: Option<string>)
    ensures r.None? <==> x !in tokens
    ensures r.Some? ==> r.value == ServicesField(RemoveFirst(tokens, x))
  {
    if x in tokens then Some(ServicesField(RemoveFirst(tokens, x))) else None
  }

  /** Removing the only copy of a token leaves the other tokens and drops that one. */
  lemma RemoveServiceFieldMembers(tokens: seq<string>, x: string)
    requires x in tokens && multiset(tokens)[x] == 1
    ensures forall y :: y in RemoveFirst(tokens, x) <==> y in tokens && y != x
  {
    var r := RemoveFirst(tokens, x);
    forall y ensures y in r <==> y in tokens && y != x {
      assert y in r <==> y in multiset(r);
      assert y in tokens <==> y in multiset(tokens);
    }
  }

  // ---------------------------------------------------------------------------
  // The serialiser
  // ---------------------------------------------------------------------------

  /**
   * `crear_dispositivo_dict`: `IP` and `IP_TYPE` only with a (non-empty) IP,
   * `MÁSCARA` only with an IP, a mask and type "IPv4", `CAPA` only when given,
   * services as a sorted de-duplicated string, VLANs sorted by id.
   */
  function CreateDevice(kind: string, name: string, ip: Option<string>, mask: Option<string>,
                        ipType: Option<string>, layer: Option<string>,
                        services: seq<string>, vlans: seq<Vlan>): (d: Device)
    ensures d.kind == kind && d.name == name
    ensures d.ip.Str? <==> Truthy(ip)
    ensures d.ip.Str? ==> Some(d.ip.value) == ip
    ensures d.ipType != Absent <==> Truthy(ip)
    ensures Truthy(ip) ==> Get(d.ipType) == ipType
    ensures d.mask.Str? <==> Truthy(ip) && Truthy(mask) && ipType == Some("IPv4")
    ensures d.mask.Str? ==> Some(d.mask.value) == mask
    ensures d.mask != Null && d.ip != Null && d.layer != Null
    ensures d.layer.Str? <==> Truthy(layer)
    ensures d.layer.Str? ==> Some(d.layer.value) == layer
    ensures services == [] ==> d.services == NoServices
    ensures services != [] ==> d.services == Join(SortedSet(services), " ")
    ensures SortedById(d.vlans) && multiset(d.vlans) == multiset(vlans)
  {
    var hasIp := Truthy(ip);
    Device(
      kind,
      name,
      if hasIp then Str(ip.value) else Absent,
      if hasIp then Put(ipType) else Absent,
      if hasIp && Truthy(mask) && ipType == Some("IPv4") then Str(mask.value) else Absent,
      if Truthy(layer) then Str(layer.value) else Absent,
      ServicesField(services),
      SortById(vlans))
  }

  /** VLANs given already sorted by id are stored in the order given. */
  lemma CreateDeviceKeepsSortedVlans(kind: string, name: string, ip: Option<string>, mask: Option<string>,
                                     ipType: Option<string>, layer: Option<string>,
                                     services: seq<string>, vlans: seq<Vlan>)
    requires SortedById(vlans)
    ensures CreateDevice(kind, name, ip, mask, ipType, layer, services, vlans).vlans == vlans
  {
    SortByIdSorted(vlans);
  }

  /**
   * The second variant's `crear_dispositivo_dict`: the name, and the services
   * when there are any, are validated first; any failure gives `None`, never a
   * partial record.
   */
  function CreateCheckedDevice(kind: string, name: string, ip: Option<string>, mask: Option<string>,
                               ipType: Option<string>, layer: Option<string>,
                               services: seq<string>, vlans: seq<Vlan>): (r: Option<Device>)
    ensures r.Some? <==> ValidatePlainName(name) == Pass &&
                         forall i :: 0 <= i < |services| ==> services[i] in ServiceLabels
    ensures r.Some? ==> r.value == CreateDevice(kind, name, ip, mask, ipType, layer, services, vlans)
  {
    if ValidatePlainName(name).Fail? then None
    else if services != [] && ValidateServices(services).Fail? then None
    else Some(CreateDevice(kind, name, ip, mask, ipType, layer, services, vlans))
  }

  // ---------------------------------------------------------------------------
  // Network fields
  // ---------------------------------------------------------------------------

  /**
   * The network fields agree with each other: an IPv4 record has an IP and a
   * valid mask, an IPv6 record an IP and no mask, a record without a type
   * neither an IP nor a mask.
   */
  predicate NetConsistent(ip: Option<string>, mask: Option<string>, ipType: Option<string>) {
    if ipType == Some("IPv4") then ip.Some? && mask.Some? && ValidateMask(mask.value) == Pass
    else if ipType == Some("IPv6") then ip.Some? && mask.None?
    else ipType.None? && ip.None? && mask.None?
  }

  /** The network fields of a record, read with `get`. */
  predicate DeviceNetConsistent(d: Device) {
    NetConsistent(Get(d.ip), Get(d.mask), Get(d.ipType))
  }

  /** A record built from consistent, non-empty network values keeps them consistent. */
  lemma CreateDeviceNetConsistent(kind: string, name: string, ip: Option<string>, mask: Option<string>,
                                  ipType: Option<string>, layer: Option<string>,
                                  services: seq<string>, vlans: seq<Vlan>)
    requires NetConsistent(ip, mask, ipType)
    requires ip.Some? ==> ip.value != ""
    requires mask.Some? ==> mask.value != ""
    ensures DeviceNetConsistent(CreateDevice(kind, name, ip, mask, ipType, layer, services, vlans))
  {
  }

  // ---------------------------------------------------------------------------
  // Duplicate IPs
  // ---------------------------------------------------------------------------

  /** `any(d.get("IP") == ip for d in devices)`: the create step's test, with no exclusion. */
  predicate IpInUse(devices: seq<Device>, ip: string) {
    exists i :: 0 <= i < |devices| && devices[i].ip == Str(ip)
  }

  /**
   * The edit step's test as written: some record holds `ip`, and `ip` differs
   * from the IP the working copy holds now.
   */
  predicate IpClashAsWritten(devices: seq<Device>, working: Device, ip: string) {
    exists i :: 0 <= i < |devices| && devices[i].ip == Str(ip) && working.ip != Str(ip)
  }

  /** The evidently intended edit test: a record other than the one being edited holds `ip`. */
  predicate IpTakenByOther(devices: seq<Device>, index: nat, ip: string) {
    exists i :: 0 <= i < |devices| && i != index && devices[i].ip == Str(ip)
  }

  /** No two records hold the same IP. */
  predicate UniqueIps(devices: seq<Device>) {
    forall i, j :: 0 <= i < j < |devices| && devices[i].ip.Str? ==> devices[i].ip != devices[j].ip
  }

  /**
   * The two edit tests agree as long as the working copy still holds the
   * record's stored IP and the collection has no duplicate IPs.
   */
  lemma IpClashAgrees(devices: seq<Device>, index: nat, working: Device, ip: string)
    requires index < |devices| && UniqueIps(devices)
    requires working.ip == devices[index].ip
    ensures IpClashAsWritten(devices, working, ip) <==> IpTakenByOther(devices, index, ip)
  {
    if IpTakenByOther(devices, index, ip) {
      var i :| 0 <= i < |devices| && i != index && devices[i].ip == Str(ip);
      assert devices[i].ip != devices[index].ip by {
        if i < index {
          assert devices[i].ip != devices[index].ip;
        } else {
          assert devices[index].ip != devices[i].ip;
        }
      }
    }
  }

  /**
   * As written, a record whose IP was changed in the session cannot take its
   * own stored IP back: record 0 holds 10.0.0.1, the copy holds 10.0.0.2, and
   * 10.0.0.1 is refused although no other record holds it.
   */
  lemma IpClashRefusesOwnAddress(d: Device)
    requires d.ip == Str("10.0.0.1")
    ensures IpClashAsWritten([d], d.(ip := Str("10.0.0.2")), "10.0.0.1")
    ensures !IpTakenByOther([d], 0, "10.0.0.1")
  {
    assert [d][0].ip == Str("10.0.0.1");
  }

  /** The create test refuses whatever either edit test refuses. */
  lemma IpInUseCovers(devices: seq<Device>, index: nat, working: Device, ip: string)
    ensures IpClashAsWritten(devices, working, ip) ==> IpInUse(devices, ip)
    ensures IpTakenByOther(devices, index, ip) ==> IpInUse(devices, ip)
  {
  }
}
