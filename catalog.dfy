/**
 * The fixed catalogues of the inventory manager: service labels, device
 * kinds and their display labels, network layers and the VLAN id range.
 * Labels are written with `\U{..}` escapes for their emoji.
 */
module Catalog {
  import opened Wrappers

  const VlanIdMin: nat := 1
  const VlanIdMax: nat := 4094

  /** The six values of `SERVICIOS_VALIDOS`, in dictionary order. */
  const ServiceLabels: seq<string> := [
    "\U{1F50D} DNS",
    "\U{1F310} DHCP",
    "\U{1F578}\U{FE0F} Servicio Web",
    "\U{1F5C3}\U{FE0F} Base de Datos",
    "\U{2709}\U{FE0F} Servicio de Correo",
    "\U{1F6E1}\U{FE0F} VPN"
  ]

  /** The keys of `TIPOS_DISPOSITIVO`. */
  datatype Kind = Pc | Servidor | Router | Switch | Firewall | Impresora

  /** The display label of a kind, the value stored in a record's `TIPO`. */
  function KindLabel(k: Kind): string {
    match k
    case Pc => "\U{1F4BB} PC"
    case Servidor => "\U{1F5A7} Servidor"
    case Router => "\U{1F4F6} Router"
    case Switch => "\U{1F500} Switch"
    case Firewall => "\U{1F525} Firewall"
    case Impresora => "\U{1F5A8}\U{FE0F} Impresora"
  }

  /** Distinct kinds have distinct labels. */
  lemma KindLabelInjective(j: Kind, k: Kind)
    ensures KindLabel(j) == KindLabel(k) ==> j == k
  {
    if j != k {
      assert KindLabel(j)[0] != KindLabel(k)[0];
    }
  }

  /** `next((k for k, v in TIPOS_DISPOSITIVO.items() if v == text), None)`. */
  function KindOf(text: string): (r: Option<Kind>)
    ensures r.Some? ==> KindLabel(r.value) == text
    ensures r.None? ==> forall k: Kind :: KindLabel(k) != text
  {
    if text == KindLabel(Pc) then Some(Pc)
    else if text == KindLabel(Servidor) then Some(Servidor)
    else if text == KindLabel(Router) then Some(Router)
    else if text == KindLabel(Switch) then Some(Switch)
    else if text == KindLabel(Firewall) then Some(Firewall)
    else if text == KindLabel(Impresora) then Some(Impresora)
    else None
  }

  /** The reverse lookup inverts the label map. */
  lemma KindOfLabel(k: Kind)
    ensures KindOf(KindLabel(k)) == Some(k)
  {
    KindLabelInjective(KindOf(KindLabel(k)).value, k);
  }

  /** `TIPOS_CON_SERVICIOS`: the kinds whose records may list services. */
  predicate HasServices(k: Option<Kind>) {
    k == Some(Servidor) || k == Some(Router) || k == Some(Firewall)
  }

  /** `TIPOS_CON_VLANS`: the kinds whose records may carry VLANs. */
  predicate HasVlans(k: Option<Kind>) {
    k == Some(Switch) || k == Some(Router) || k == Some(Firewall) || k == Some(Servidor)
  }

  /** The eight values of `CAPAS_RED` in the dictionary-based variants, in dictionary order. */
  const LayerLabels: seq<string> := [
    "\U{1F48E} N\U{FA}cleo (Core)",
    "\U{1F4E6} Distribuci\U{F3}n",
    "\U{1F50C} Acceso",
    "\U{1F6A2} Transporte",
    "\U{1F4F1} Aplicaci\U{F3}n",
    "\U{1F517} F\U{ED}sica",
    "\U{1F517} Enlace de Datos",
    "\U{1F310} Red"
  ]
}
