/**
 * The edit session of the anchor variant: a working copy of one record is
 * edited option by option, and only "save" writes it back into the collection,
 * after the name is checked again with the record itself excluded.
 */
module Editing {
  import opened Wrappers
  import opened Text
  import opened Catalog
  import opened Validators
  import opened Records
  import opened Network
  import opened Inventory

  // ---------------------------------------------------------------------------
  // The VLAN sub-menu's two lists
  // ---------------------------------------------------------------------------

  /**
   * The sub-menu keeps a list of its own (`vlans_actuales_list`), fetched once
   * from the working copy, besides what it stores into `disp_edit["VLANS"]`.
   */
  datatype VlanMenu = VlanMenu(view: seq<Vlan>, stored: seq<Vlan>)

  /** "Añadir" as written: the entry is appended to the menu's list, and a sorted copy is stored. */
  function MenuAddAsWritten(m: VlanMenu, v: Vlan): (r: VlanMenu)
    ensures r.view == m.view + [v] && SortedById(r.stored)
    ensures multiset(r.stored) == multiset(m.view) + multiset{v}
  {
    VlanMenu(m.view + [v], AppendSorted(m.view, v))
  }

  /** "Eliminar" as written: the menu's own list loses the entry and is stored as it is. */
  function MenuRemoveAsWritten(m: VlanMenu, pos: nat): (r: VlanMenu)
    requires pos < |m.view|
    ensures r.view == r.stored == RemoveAt(m.view, pos)
  {
    var rest := RemoveAt(m.view, pos);
    VlanMenu(rest, rest)
  }

  /**
   * Adding ids 30, 10 and 20 (any `x`, `y`, `z` with `z` below `x`) and then
   * removing the second entry shown stores the unsorted list `[x, z]`.
   */
  lemma VlanMenuLosesOrder(x: Vlan, y: Vlan, z: Vlan)
    requires z.id < x.id
    ensures var m := MenuRemoveAsWritten(MenuAddAsWritten(MenuAddAsWritten(MenuAddAsWritten(VlanMenu([], []), x), y), z), 1);
            m.stored == [x, z] && !SortedById(m.stored)
  {
    var m1 := MenuAddAsWritten(VlanMenu([], []), x);
    var m2 := MenuAddAsWritten(m1, y);
    var m3 := MenuAddAsWritten(m2, z);
    assert |m1.view| == 1 && m1.view[0] == x;
    assert |m2.view| == 2 && m2.view[0] == x;
    assert |m3.view| == 3 && m3.view[0] == x && m3.view[2] == z;
    var m := MenuRemoveAsWritten(m3, 1);
    assert |m.stored| == 2 && m.stored[0] == x && m.stored[1] == z;
    assert m.stored == [x, z];
    assert m.stored[0].id > m.stored[1].id;
  }

  /** "Añadir" corrected: the menu's list is the stored list, kept sorted. */
  function MenuAdd(m: VlanMenu, v: Vlan): (r: VlanMenu)
    ensures r.view == r.stored && SortedById(r.stored)
    ensures multiset(r.stored) == multiset(m.stored) + multiset{v}
  {
    var s := AppendSorted(m.stored, v);
    VlanMenu(s, s)
  }

  /** "Eliminar" corrected: pop from the stored list. */
  function MenuRemove(m: VlanMenu, pos: nat): (r: VlanMenu)
    requires pos < |m.stored|
    ensures r.view == r.stored
    ensures multiset(r.stored) == multiset(m.stored) - multiset{m.stored[pos]}
  {
    RemoveAtMultiset(m.stored, pos);
    var s := RemoveAt(m.stored, pos);
    VlanMenu(s, s)
  }

  /** What the corrected sub-menu keeps: one list, sorted, each id once. */
  predicate MenuGood(m: VlanMenu) {
    m.view == m.stored && SortedById(m.stored) && UniqueIds(m.stored)
  }

  /** Every corrected add of a new id and every corrected remove keeps the sub-menu good. */
  lemma MenuKeeps(m: VlanMenu, v: Vlan, pos: nat)
    requires MenuGood(m)
    ensures !HasVlanId(m.stored, v.id) ==> MenuGood(MenuAdd(m, v))
    ensures pos < |m.stored| ==> MenuGood(MenuRemove(m, pos))
  {
    AppendSortedInserts(m.stored, v);
    if pos < |m.stored| {
      RemoveAtKeeps(m.stored, pos);
    }
  }

  /** An entry the add path builds for a good sub-menu has a new id, so adding it keeps the sub-menu good. */
  lemma MenuEntryKeeps(m: VlanMenu, rawId: string, rawName: string)
    requires MenuGood(m) && VlanEntry(m.view, rawId, rawName).Ok?
    ensures MenuGood(MenuAdd(m, VlanEntry(m.view, rawId, rawName).value))
  {
    VlanEntryId(m.view, rawId, rawName);
    MenuKeeps(m, VlanEntry(m.view, rawId, rawName).value, 0);
  }

  /**
   * One "Añadir" of the sub-menu of `variant`: an accepted entry is added, as
   * written or corrected, and a refused one (bad id, duplicate id, bad name)
   * leaves both lists. The corrected sub-menu stays good.
   */
  function MenuAnswer(variant: Variant, m: VlanMenu, rawId: string, rawName: string): (r: VlanMenu)
    ensures VlanEntry(m.view, rawId, rawName).Ok? ==>
              r == if variant == AsWritten then MenuAddAsWritten(m, VlanEntry(m.view, rawId, rawName).value)
                   else MenuAdd(m, VlanEntry(m.view, rawId, rawName).value)
    ensures VlanEntry(m.view, rawId, rawName).Err? ==> r == m
    ensures variant == Corrected && MenuGood(m) ==> MenuGood(r)
  {
    var e := VlanEntry(m.view, rawId, rawName);
    if e.Err? then m
    else if variant == AsWritten then MenuAddAsWritten(m, e.value)
    else (if MenuGood(m) then MenuEntryKeeps(m, rawId, rawName); MenuAdd(m, e.value) else MenuAdd(m, e.value))
  }

  /** The list the sub-menu of `variant` numbers and pops from: its own list as written, the stored list corrected. */
  function Shown(variant: Variant, m: VlanMenu): seq<Vlan> {
    if variant == AsWritten then m.view else m.stored
  }

  /** One "Eliminar" of the sub-menu of `variant`, at a position of the list it shows. */
  function MenuPop(variant: Variant, m: VlanMenu, pos: nat): (r: VlanMenu)
    requires pos < |Shown(variant, m)|
    ensures r.view == r.stored == RemoveAt(Shown(variant, m), pos)
    ensures multiset(r.stored) == multiset(Shown(variant, m)) - multiset{Shown(variant, m)[pos]}
    ensures variant == Corrected && MenuGood(m) ==> MenuGood(r)
  {
    RemoveAtMultiset(Shown(variant, m), pos);
    if variant == AsWritten then MenuRemoveAsWritten(m, pos)
    else (if MenuGood(m) then MenuKeeps(m, m.stored[pos], pos); MenuRemove(m, pos) else MenuRemove(m, pos))
  }

  /**
   * While the sub-menu's two lists are one list (before any as-written add),
   * both variants pop the same entry and leave the same lists.
   */
  lemma MenuPopAgrees(m: VlanMenu, pos: nat)
    requires m.view == m.stored && pos < |m.stored|
    ensures MenuPop(AsWritten, m, pos) == MenuPop(Corrected, m, pos)
  {
  }

  // ---------------------------------------------------------------------------
  // Type changes
  // ---------------------------------------------------------------------------

  /** The two warnings a type change prints: services, then VLANs, the new type may not support. */
  datatype TypeWarnings = TypeWarnings(services: bool, vlans: bool)

  /** The warnings of a change from type key `from` to `to` on record `d`. */
  function WarningsOf(from: Option<Kind>, to: Kind, d: Device): (w: TypeWarnings)
    ensures w.services <==> HasServices(from) && !HasServices(Some(to)) && d.services != NoServices
    ensures w.vlans <==> HasVlans(from) && !HasVlans(Some(to)) && d.vlans != []
  {
    TypeWarnings(HasServices(from) && !HasServices(Some(to)) && d.services != NoServices,
                 HasVlans(from) && !HasVlans(Some(to)) && d.vlans != [])
  }

  // ---------------------------------------------------------------------------
  // Saving
  // ---------------------------------------------------------------------------

  /**
   * A save that passes the name check keeps the collection's names distinct:
   * the new record's name clashes with no other record's.
   */
  lemma SaveKeepsDistinctNames(devices: seq<Device>, index: nat, e: Device)
    requires index < |devices|
    requires DistinctNames(devices)
    requires ValidateName(e.name, Names(devices), Some(index)) == Pass
    ensures DistinctNames(devices[index := e])
  {
    var ds := devices[index := e];
    forall i, j | 0 <= i < j < |ds| ensures Lower(ds[i].name) != Lower(ds[j].name) {
      if i == index {
        assert Names(devices)[j] == devices[j].name;
      } else if j == index {
        assert Names(devices)[i] == devices[i].name;
      }
    }
  }

  /**
   * A finished corrected address dialogue, written into a record whose network
   * fields agree, leaves them agreeing, with an IP that is valid and not another record's.
   */
  lemma NetworkEditKeeps(devices: seq<Device>, index: nat, w: Device, answers: seq<string>, isIpv6: string -> bool)
    ensures var r := RunEdit(Corrected, devices, index, w, EditStart(w), answers, isIpv6);
            r.Finished? && DeviceNetConsistent(w) ==>
              DeviceNetConsistent(ApplyNet(w, r.vars)) && FreshIp(devices, index, w, r.vars, isIpv6)
  {
    var r := RunEdit(Corrected, devices, index, w, EditStart(w), answers, isIpv6);
    if r.Finished? && DeviceNetConsistent(w) {
      EditDialogueConsistent(devices, index, w, answers, isIpv6);
      ApplyNetConsistent(w, r.vars);
    }
  }

  // ---------------------------------------------------------------------------
  // The session
  // ---------------------------------------------------------------------------

  /**
   * `editar_dispositivo_interactivo(indice, dispositivos_actuales)`: `original`
   * is the record at `index` when the session starts, `working` its deep copy.
   * `tokens` is the service sub-menu's parsed list and `view` the VLAN
   * sub-menu's list, each fetched when its sub-menu opens. Every option but
   * "save" changes only the session.
   */
  class EditSession {
    const inv: DeviceList
    const index: nat
    const original: Device
    var working: Device
    var tokens: seq<string>
    var view: seq<Vlan>

    /** The session's record still exists. */
    predicate Valid()
      reads this, inv
    {
      index < |inv.devices|
    }

    constructor (inv: DeviceList, index: nat)
      requires index < |inv.devices|
      ensures this.inv == inv && this.index == index
      ensures original == inv.devices[index] && working == original
      ensures tokens == [] && view == []
      ensures Valid()
    {
      this.inv := inv;
      this.index := index;
      original := inv.devices[index];
      working := inv.devices[index];
      tokens := [];
      view := [];
    }

    /**
     * Option 1: a stripped answer that is non-empty and differs from the
     * current name replaces it if it passes the name check with the record
     * itself excluded; anything else leaves the copy as it was.
     */
    method Rename(answer: string) returns (r: Option<Outcome<NameError>>)
      requires Valid()
      modifies this
      ensures var t := Strip(answer);
              if t != "" && t != old(working.name) then
                r == Some(ValidateName(t, Names(inv.devices), Some(index))) &&
                working == (if r.value == Pass then old(working).(name := t) else old(working))
              else r == None && working == old(working)
      ensures tokens == old(tokens) && view == old(view)
    {
      var t := Strip(answer);
      if t != "" && t != working.name {
        var check := ValidateName(t, Names(inv.devices), Some(index));
        r := Some(check);
        if check == Pass {
          working := working.(name := t);
        }
      } else {
        r := None;
      }
    }

    /**
     * Option 2: a chosen type other than the current one rewrites only `TIPO`;
     * services and VLANs stay, with a warning where the new type may not support them.
     */
    method Retype(choice: Option<Kind>) returns (w: Option<TypeWarnings>)
      requires Valid()
      modifies this
      ensures var from := KindOf(old(working.kind));
              if choice.Some? && Some(choice.value) != from then
                working == old(working).(kind := KindLabel(choice.value)) &&
                w == Some(WarningsOf(from, choice.value, old(working)))
              else w == None && working == old(working)
      ensures working.services == old(working.services) && working.vlans == old(working.vlans)
      ensures tokens == old(tokens) && view == old(view)
    {
      var from := KindOf(working.kind);
      if choice.Some? && Some(choice.value) != from {
        w := Some(WarningsOf(from, choice.value, working));
        working := working.(kind := KindLabel(choice.value));
      } else {
        w := None;
      }
    }

    /**
     * Option 3: the address dialogue of `variant` (the code as written, or with
     * its findings corrected) is played on `answers`; a completed dialogue
     * writes its four values into the copy, a cancelled or unfinished one
     * leaves it. With the corrected dialogue, starting from agreeing network
     * fields, the written ones agree too, and a changed IP is valid and not
     * another record's.
     */
    method EditNetwork(variant: Variant, answers: seq<string>, isIpv6: string -> bool) returns (r: EditRun)
      requires Valid()
      modifies this
      ensures r == RunEdit(variant, inv.devices, index, old(working), EditStart(old(working)), answers, isIpv6)
      ensures r.Finished? ==> working == ApplyNet(old(working), r.vars)
      ensures !r.Finished? ==> working == old(working)
      ensures variant == Corrected && r.Finished? && DeviceNetConsistent(old(working)) ==>
                DeviceNetConsistent(working) && FreshIp(inv.devices, index, old(working), r.vars, isIpv6)
      ensures tokens == old(tokens) && view == old(view)
    {
      r := PlayEdit(variant, inv.devices, index, working, answers, isIpv6);
      NetworkEditKeeps(inv.devices, index, working, answers, isIpv6);
      if r.Finished? {
        working := ApplyNet(working, r.vars);
      }
    }

    /** Option 4 opens only for types with services, and parses the stored string once. */
    method OpenServices() returns (isOpen: bool)
      requires Valid()
      modifies this
      ensures isOpen <==> HasServices(KindOf(working.kind))
      ensures isOpen ==> tokens == ParseServices(working.services)
      ensures !isOpen ==> tokens == old(tokens)
      ensures working == old(working) && view == old(view)
    {
      isOpen := HasServices(KindOf(working.kind));
      if isOpen {
        tokens := ParseServices(working.services);
      }
    }

    /** "Añadir Servicio": a label not yet in the list is appended, and the list stored de-duplicated and sorted. */
    method ServiceAdd(svc: string)
      requires Valid()
      requires svc in ServiceLabels && svc !in tokens
      modifies this
      ensures tokens == old(tokens) + [svc]
      ensures working == old(working).(services := ServicesField(tokens))
      ensures view == old(view)
    {
      tokens := tokens + [svc];
      working := working.(services := ServicesField(tokens));
    }

    /** "Eliminar Servicio": the first copy of the chosen token leaves the list, and the rest is stored, or "Ninguno". */
    method ServiceRemove(x: string)
      requires Valid()
      requires x in tokens
      modifies this
      ensures tokens == RemoveFirst(old(tokens), x)
      ensures working == old(working).(services := ServicesField(tokens))
      ensures view == old(view)
    {
      tokens := RemoveFirst(tokens, x);
      working := working.(services := ServicesField(tokens));
    }

    /** Option 5 opens only for types with VLANs, and fetches the copy's list. */
    method OpenVlans() returns (isOpen: bool)
      requires Valid()
      modifies this
      ensures isOpen <==> HasVlans(KindOf(working.kind))
      ensures isOpen ==> view == working.vlans
      ensures !isOpen ==> view == old(view)
      ensures working == old(working) && tokens == old(tokens)
    {
      isOpen := HasVlans(KindOf(working.kind));
      if isOpen {
        view := working.vlans;
      }
    }

    /**
     * "Añadir VLAN" on the sub-menu of `variant`: the entry is built against the
     * sub-menu's own list; an accepted entry is added to both lists, as
     * written (appended to the list shown, a sorted copy stored) or corrected.
     */
    method VlanAdd(variant: Variant, rawId: string, rawName: string) returns (r: Result<Vlan, VlanAddError>)
      requires Valid()
      modifies this
      ensures r == VlanEntry(old(view), rawId, rawName)
      ensures VlanMenu(view, working.vlans) == MenuAnswer(variant, VlanMenu(old(view), old(working.vlans)), rawId, rawName)
      ensures working == old(working).(vlans := working.vlans)
      ensures variant == Corrected && MenuGood(VlanMenu(old(view), old(working.vlans))) ==> MenuGood(VlanMenu(view, working.vlans))
      ensures tokens == old(tokens)
    {
      var m := VlanMenu(view, working.vlans);
      r := VlanEntry(view, rawId, rawName);
      var m' := MenuAnswer(variant, m, rawId, rawName);
      view := m'.view;
      working := working.(vlans := m'.stored);
    }

    /**
     * "Eliminar VLAN" on the sub-menu of `variant`: the entry at `pos` of the
     * list shown is popped, and what is left is both shown and stored.
     */
    method VlanRemove(variant: Variant, pos: nat) returns (removed: Vlan)
      requires Valid()
      requires pos < |Shown(variant, VlanMenu(view, working.vlans))|
      modifies this
      ensures removed == Shown(variant, VlanMenu(old(view), old(working.vlans)))[pos]
      ensures VlanMenu(view, working.vlans) == MenuPop(variant, VlanMenu(old(view), old(working.vlans)), pos)
      ensures working == old(working).(vlans := working.vlans)
      ensures variant == Corrected && MenuGood(VlanMenu(old(view), old(working.vlans))) ==> MenuGood(VlanMenu(view, working.vlans))
      ensures tokens == old(tokens)
    {
      var m := VlanMenu(view, working.vlans);
      removed := Shown(variant, m)[pos];
      var m' := MenuPop(variant, m, pos);
      view := m'.view;
      working := working.(vlans := m'.stored);
    }

    /**
     * Option 8: the copy's name is checked against the collection with the
     * record excluded; on success only the record at `index` is replaced by
     * the copy, which keeps the names distinct, and the session ends.
     */
    method Save() returns (saved: bool)
      requires Valid()
      modifies inv
      ensures saved <==> ValidateName(working.name, Names(old(inv.devices)), Some(index)) == Pass
      ensures saved ==> inv.devices == old(inv.devices)[index := working]
      ensures !saved ==> inv.devices == old(inv.devices)
      ensures saved && DistinctNames(old(inv.devices)) ==> DistinctNames(inv.devices)
      ensures saved && VlansOk(old(inv.devices)) && SortedById(working.vlans) && UniqueIds(working.vlans) ==>
                VlansOk(inv.devices)
    {
      saved := ValidateName(working.name, Names(inv.devices), Some(index)) == Pass;
      if saved {
        if DistinctNames(inv.devices) {
          SaveKeepsDistinctNames(inv.devices, index, working);
        }
        ReplaceDeviceKeeps(inv.devices, index, working);
        inv.devices := inv.devices[index := working];
      }
    }

    /** Option 0: the session ends only when the copy equals the record as it was when the session began. */
    method Leave() returns (ends: bool)
      requires Valid()
      ensures ends <==> working == original
    {
      ends := working == original;
    }
  }
}
