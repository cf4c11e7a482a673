/**
 * The rendered records of the line-based variant (`lacodiga.py`): each record
 * is one text of coloured `KEY: value` lines between two separator rules, as
 * `crear_dispositivo` writes it. The module also reads such a text back into
 * its key and value pairs, which is how the model states what a record holds.
 */
module Rendering {
  import opened Wrappers
  import opened Text
  import opened Strings
  import opened Catalog
  import opened Validators

  // ---------------------------------------------------------------------------
  // Colours, keys and lines
  // ---------------------------------------------------------------------------

  const Cyan: string := "\U{1B}[96m"
  const Blue: string := "\U{1B}[94m"
  const Red: string := "\U{1B}[91m"
  const Bold: string := "\U{1B}[1m"
  /** `Color.END`. */
  const Reset: string := "\U{1B}[0m"

  /** The six kinds of line a record can hold, in the order they are written. */
  datatype Key = TipoKey | NombreKey | IpKey | MascaraKey | CapaKey | ServiciosKey

  /** The emoji in front of each key word. */
  function Emoji(k: Key): (e: string)
    ensures |e| >= 1
  {
    match k
    case TipoKey => "\U{1F527}"
    case NombreKey => "\U{1F3F7}\U{FE0F}"
    case IpKey => "\U{1F30D}"
    case MascaraKey => "\U{1F310}"
    case CapaKey => "\U{1F4CA}"
    case ServiciosKey => "\U{1F6E0}\U{FE0F}"
  }

  function Word(k: Key): string {
    match k
    case TipoKey => "TIPO"
    case NombreKey => "NOMBRE"
    case IpKey => "IP"
    case MascaraKey => "M\U{C1}SCARA"
    case CapaKey => "CAPA"
    case ServiciosKey => "SERVICIOS"
  }

  /** The coloured head of a line: cyan emoji, bold key word and colon, reset. */
  function Head(k: Key): (h: string)
    ensures |h| > 5 && h[..5] == Cyan && h[5] == Emoji(k)[0]
  {
    Cyan + Emoji(k) + " " + Bold + Word(k) + ":" + Reset
  }

  /** The key whose emoji starts with `c`. */
  function KeyOfMark(c: char): (r: Option<Key>)
    ensures r.Some? ==> Emoji(r.value)[0] == c
    ensures r.None? ==> forall k: Key :: Emoji(k)[0] != c
  {
    if c == '\U{1F527}' then Some(TipoKey)
    else if c == '\U{1F3F7}' then Some(NombreKey)
    else if c == '\U{1F30D}' then Some(IpKey)
    else if c == '\U{1F310}' then Some(MascaraKey)
    else if c == '\U{1F4CA}' then Some(CapaKey)
    else if c == '\U{1F6E0}' then Some(ServiciosKey)
    else None
  }

  /** The emoji tell the keys apart by their first character. */
  lemma KeyOfEmoji(k: Key)
    ensures KeyOfMark(Emoji(k)[0]) == Some(k)
  {
  }

  /** One line of a record: `f"{CYAN}<emoji> {BOLD}KEY:{END} {value}"`. */
  function FieldLine(k: Key, v: string): string {
    Head(k) + " " + v
  }

  /** Reads a line back into its key and value, if it is a record line. */
  function ParseLine(line: string): Option<(Key, string)> {
    if |line| <= 5 then None
    else
      match KeyOfMark(line[5])
      case None => None
      case Some(k) =>
        if StartsWith(line, Head(k) + " ") then Some((k, line[|Head(k)| + 1..])) else None
  }

  /** Reading a written line gives back its key and value. */
  lemma ParseFieldLine(k: Key, v: string)
    ensures ParseLine(FieldLine(k, v)) == Some((k, v))
  {
    var line := FieldLine(k, v);
    assert line == (Head(k) + " ") + v;
    assert line[5] == Head(k)[5];
    KeyOfEmoji(k);
    assert line[..|Head(k) + " "|] == Head(k) + " ";
    assert line[|Head(k)| + 1..] == v;
  }

  /** A written line starts with the head of its own key and of no other. */
  lemma FieldLineHead(j: Key, k: Key, v: string)
    ensures StartsWith(FieldLine(j, v), Head(k)) <==> j == k
  {
    var line := FieldLine(j, v);
    assert line == Head(j) + (" " + v);
    assert line[..|Head(j)|] == Head(j);
    if StartsWith(line, Head(k)) {
      assert line[5] == Head(j)[5];
      assert line[5] == line[..|Head(k)|][5] == Head(k)[5];
      KeyOfEmoji(j);
      KeyOfEmoji(k);
    }
  }

  const RuleWidth: nat := 60

  /** `c * n`. */
  function Repeat(c: char, n: nat): (r: string)
    ensures |r| == n && forall i :: 0 <= i < n ==> r[i] == c
  {
    seq(n, _ => c)
  }

  /** `'\U{2550}' * 60`. */
  const Bar: string := Repeat('\U{2550}', RuleWidth)

  /** The separator rule: sixty box-drawing characters in blue. */
  const Separator: string := Blue + Bar + Reset

  /** Python truthiness of an optional text: present and non-empty. */
  predicate Truthy(v: Option<string>) {
    v.Some? && v.value != ""
  }

  // ---------------------------------------------------------------------------
  // Creating a record
  // ---------------------------------------------------------------------------

  /**
   * The key and value pairs `crear_dispositivo` writes, in order: type and
   * name; the IP if given, and then the mask if given; the layer if given; the
   * services, joined by spaces, if there are any.
   */
  function Entries(kind: string, name: string, ip: Option<string>, mask: Option<string>,
                   layer: Option<string>, services: seq<string>): seq<(Key, string)>
  {
    [(TipoKey, kind), (NombreKey, name)]
    + (if Truthy(ip) then [(IpKey, ip.value)] + (if Truthy(mask) then [(MascaraKey, mask.value)] else []) else [])
    + (if Truthy(layer) then [(CapaKey, layer.value)] else [])
    + (if services != [] then [(ServiciosKey, Join(services, " "))] else [])
  }

  /** The lines of a list of pairs. */
  function Render(es: seq<(Key, string)>): (r: seq<string>)
    ensures |r| == |es| && forall i :: 0 <= i < |es| ==> r[i] == FieldLine(es[i].0, es[i].1)
  {
    seq(|es|, i requires 0 <= i < |es| => FieldLine(es[i].0, es[i].1))
  }

  /** Why `crear_dispositivo` returned an error text. */
  datatype CreateError = NameCharsetRefused | NameTooLongRefused | ServiceRefused(service: string)

  /** `validar_nombre`, then `validar_servicios` when the list is non-empty. */
  function CreateCheck(name: string, services: seq<string>): (r: Outcome<CreateError>)
    ensures r == Pass <==> ValidateShortName(name) == Pass && forall i :: 0 <= i < |services| ==> services[i] in ServiceLabels
    ensures r.Fail? && r.error.ServiceRefused? ==>
              ValidateShortName(name) == Pass && r.error.service in services && r.error.service !in ServiceLabels
  {
    match ValidateShortName(name)
    case Fail(NameTooLong) => Fail(NameTooLongRefused)
    case Fail(_) => Fail(NameCharsetRefused)
    case Pass =>
      if services == [] then Pass
      else
        match ValidateServices(services)
        case Fail(s) => Fail(ServiceRefused(s))
        case Pass => Pass
  }

  function Message(e: CreateError): string {
    match e
    case NameCharsetRefused => "El nombre solo puede contener letras, n\U{FA}meros, guiones (-) y puntos (.)"
    case NameTooLongRefused => "El nombre no puede exceder los 30 caracteres"
    case ServiceRefused(s) => "Servicio inv\U{E1}lido: " + s
  }

  /** The text the main menu looks for to tell an error from a record. */
  const ErrorMark: string := "\U{274C} Error"

  function ErrorText(e: CreateError): string {
    Red + ErrorMark + (" al crear dispositivo: " + Message(e) + Reset)
  }

  /** `f"\n{separador}\n" + "\n".join(lines) + f"\n{separador}"`. */
  function Framed(lines: seq<string>): string {
    "\n" + Separator + "\n" + Join(lines, "\n") + "\n" + Separator
  }

  /** `crear_dispositivo`: the record text, or the error text when the name or the services are refused. */
  function CreateRecord(kind: string, name: string, ip: Option<string>, mask: Option<string>,
                        layer: Option<string>, services: seq<string>): string
  {
    match CreateCheck(name, services)
    case Fail(e) => ErrorText(e)
    case Pass => Framed(Render(Entries(kind, name, ip, mask, layer, services)))
  }

  /** The main menu keeps a created text when it is non-empty and holds no error mark. */
  predicate Stored(text: string) {
    text != "" && !Contains(text, ErrorMark)
  }

  // ---------------------------------------------------------------------------
  // What a record holds
  // ---------------------------------------------------------------------------

  predicate HasEntry(es: seq<(Key, string)>, k: Key) {
    exists i :: 0 <= i < |es| && es[i].0 == k
  }

  /** Some line starts with the head of key `k`. */
  predicate HasLine(lines: seq<string>, k: Key) {
    exists i :: 0 <= i < |lines| && StartsWith(lines[i], Head(k))
  }

  /** A rendered list has a line of a key exactly when it has a pair of that key. */
  lemma RenderKeys(es: seq<(Key, string)>, k: Key)
    ensures HasLine(Render(es), k) <==> HasEntry(es, k)
  {
    var r := Render(es);
    if HasEntry(es, k) {
      var i :| 0 <= i < |es| && es[i].0 == k;
      FieldLineHead(k, k, es[i].1);
      assert StartsWith(r[i], Head(k));
    }
    if HasLine(r, k) {
      var i :| 0 <= i < |r| && StartsWith(r[i], Head(k));
      FieldLineHead(es[i].0, k, es[i].1);
    }
  }

  /**
   * The line rules of `crear_dispositivo`: type then name first; an IP line
   * exactly when an IP is given; a mask line exactly when an IP and a mask are
   * given; a layer line exactly when a layer is given; a services line exactly
   * when the list is non-empty, holding the services joined by spaces, last.
   */
  lemma EntryRules(kind: string, name: string, ip: Option<string>, mask: Option<string>,
                   layer: Option<string>, services: seq<string>)
    ensures var es := Entries(kind, name, ip, mask, layer, services);
            && |es| >= 2 && es[0] == (TipoKey, kind) && es[1] == (NombreKey, name)
            && (HasEntry(es, IpKey) <==> Truthy(ip))
            && (HasEntry(es, MascaraKey) <==> Truthy(ip) && Truthy(mask))
            && (HasEntry(es, CapaKey) <==> Truthy(layer))
            && (HasEntry(es, ServiciosKey) <==> services != [])
            && (services != [] ==> es[|es| - 1] == (ServiciosKey, Join(services, " ")))
  {
    var es := Entries(kind, name, ip, mask, layer, services);
    var a := if Truthy(ip) then [(IpKey, ip.value)] + (if Truthy(mask) then [(MascaraKey, mask.value)] else []) else [];
    var l := if Truthy(layer) then [(CapaKey, layer.value)] else [];
    var s := if services != [] then [(ServiciosKey, Join(services, " "))] else [];
    assert es == [(TipoKey, kind), (NombreKey, name)] + a + l + s;
    if Truthy(ip) {
      assert es[2] == (IpKey, ip.value);
      if Truthy(mask) {
        assert es[3] == (MascaraKey, mask.value);
      }
    }
    if Truthy(layer) {
      assert es[2 + |a|] == (CapaKey, layer.value);
    }
    if services != [] {
      assert es[|es| - 1] == (ServiciosKey, Join(services, " "));
    }
  }

  /** The line rules, read on the lines of a created record. */
  lemma RecordLineRules(kind: string, name: string, ip: Option<string>, mask: Option<string>,
                        layer: Option<string>, services: seq<string>)
    ensures var lines := Render(Entries(kind, name, ip, mask, layer, services));
            && (HasLine(lines, MascaraKey) <==> Truthy(ip) && Truthy(mask))
            && (HasLine(lines, ServiciosKey) <==> services != [])
            && (HasLine(lines, IpKey) <==> Truthy(ip))
            && (HasLine(lines, CapaKey) <==> Truthy(layer))
  {
    var es := Entries(kind, name, ip, mask, layer, services);
    EntryRules(kind, name, ip, mask, layer, services);
    RenderKeys(es, MascaraKey);
    RenderKeys(es, ServiciosKey);
    RenderKeys(es, IpKey);
    RenderKeys(es, CapaKey);
  }

  // ---------------------------------------------------------------------------
  // Reading a record back
  // ---------------------------------------------------------------------------

  /** Reads every line, failing at the first that is not a record line. */
  function ParseLines(lines: seq<string>): Option<seq<(Key, string)>>
    decreases |lines|
  {
    if lines == [] then Some([])
    else
      match ParseLine(lines[0])
      case None => None
      case Some(e) =>
        match ParseLines(lines[1..])
        case None => None
        case Some(es) => Some([e] + es)
  }

  /** Reading rendered lines gives back the pairs. */
  lemma {:induction false} ParseRendered(es: seq<(Key, string)>)
    ensures ParseLines(Render(es)) == Some(es)
    decreases |es|
  {
    if es != [] {
      ParseFieldLine(es[0].0, es[0].1);
      assert Render(es)[1..] == Render(es[1..]);
      ParseRendered(es[1..]);
      assert [es[0]] + es[1..] == es;
    }
  }

  /** Splits a record text into lines and reads the lines between the two rules. */
  function DecodeRecord(text: string): Option<seq<(Key, string)>> {
    var p := Split(text, '\n');
    if |p| >= 3 && p[0] == "" && p[1] == Separator && p[|p| - 1] == Separator then ParseLines(p[2..|p| - 1])
    else None
  }

  /** The framing text is the join of an empty line, the rule, the lines and the rule. */
  lemma FrameJoin(lines: seq<string>, sep: string, nl: string)
    requires |lines| >= 1
    ensures nl + sep + nl + Join(lines, nl) + nl + sep == Join(["", sep] + lines + [sep], nl)
  {
    var inner := lines + [sep];
    var all := ["", sep] + lines + [sep];
    JoinAppend(lines, [sep], nl);
    var j := Join(inner, nl);
    assert j == Join(lines, nl) + nl + sep;
    assert all[1..] == [sep] + inner && ([sep] + inner)[1..] == inner;
    assert Join([sep] + inner, nl) == sep + nl + j;
    assert Join(all, nl) == "" + nl + (sep + nl + j);
    Regroup5(nl, sep, Join(lines, nl));
  }

  lemma Regroup5(n: string, s: string, t: string)
    ensures "" + n + (s + n + (t + n + s)) == n + s + n + t + n + s
  {
  }

  lemma FramedJoin(lines: seq<string>)
    requires |lines| >= 1
    ensures Framed(lines) == Join(["", Separator] + lines + [Separator], "\n")
  {
    FrameJoin(lines, Separator, "\n");
  }

  predicate OutsideHeads(c: char) {
    forall k: Key :: c !in Head(k)
  }

  predicate OutsideLabels(c: char) {
    forall i :: 0 <= i < |ServiceLabels| ==> c !in ServiceLabels[i]
  }

  /** A character outside the fixed text of records: every head, the rule, the name characters and the labels. */
  predicate Foreign(c: char) {
    c != ' ' && c != '\U{2550}' && c !in Blue && c !in Reset && !ShortNameChar(c) &&
    OutsideHeads(c) && OutsideLabels(c)
  }

  lemma MarksOutsideHead(k: Key)
    ensures '\n' !in Head(k) && '\U{274C}' !in Head(k)
  {
    assert '\n' !in Cyan && '\U{274C}' !in Cyan;
    assert '\n' !in Bold && '\U{274C}' !in Bold;
    assert '\n' !in Reset && '\U{274C}' !in Reset;
    match k
    case TipoKey =>
    case NombreKey =>
    case IpKey =>
    case MascaraKey =>
    case CapaKey =>
    case ServiciosKey =>
  }

  lemma MarksOutsideLabels()
    ensures OutsideLabels('\n') && OutsideLabels('\U{274C}')
  {
  }

  /** The line break and the error cross are foreign to records. */
  lemma ForeignMarks()
    ensures Foreign('\n') && Foreign('\U{274C}')
  {
    forall k: Key
      ensures '\n' !in Head(k) && '\U{274C}' !in Head(k)
    {
      MarksOutsideHead(k);
    }
    MarksOutsideLabels();
  }

  /** Every value `crear_dispositivo` is given, free of `c`. */
  predicate ValuesFree(kind: string, ip: Option<string>, mask: Option<string>, layer: Option<string>, c: char) {
    c !in kind && (ip.Some? ==> c !in ip.value) && (mask.Some? ==> c !in mask.value) && (layer.Some? ==> c !in layer.value)
  }

  /** A foreign character missing from the values is missing from every line of the record and from the rule. */
  lemma LinesFree(kind: string, name: string, ip: Option<string>, mask: Option<string>,
                  layer: Option<string>, services: seq<string>, c: char)
    requires CreateCheck(name, services) == Pass && Foreign(c) && ValuesFree(kind, ip, mask, layer, c)
    ensures c !in Separator
    ensures forall i :: 0 <= i < |Render(Entries(kind, name, ip, mask, layer, services))| ==>
              c !in Render(Entries(kind, name, ip, mask, layer, services))[i]
  {
    var es := Entries(kind, name, ip, mask, layer, services);
    assert c !in Bar;
    JoinChars(services, " ", c);
    assert c !in name;
    forall i | 0 <= i < |es|
      ensures c !in Render(es)[i]
    {
      assert c !in Head(es[i].0);
    }
  }

  /**
   * Reading a created record back gives its pairs, when no value holds a line
   * break: the record text is a faithful encoding of what was entered.
   */
  lemma DecodeCreated(kind: string, name: string, ip: Option<string>, mask: Option<string>,
                      layer: Option<string>, services: seq<string>)
    requires CreateCheck(name, services) == Pass && ValuesFree(kind, ip, mask, layer, '\n')
    ensures DecodeRecord(CreateRecord(kind, name, ip, mask, layer, services)) ==
            Some(Entries(kind, name, ip, mask, layer, services))
  {
    var es := Entries(kind, name, ip, mask, layer, services);
    var lines := Render(es);
    EntryRules(kind, name, ip, mask, layer, services);
    ForeignMarks();
    LinesFree(kind, name, ip, mask, layer, services, '\n');
    var parts := ["", Separator] + lines + [Separator];
    FramedJoin(lines);
    SplitJoin(parts, '\n');
    assert parts[2..|parts| - 1] == lines;
    ParseRendered(es);
  }

  lemma MarkAfter(a: string, m: string, b: string)
    ensures OccursAt(a + m + b, m, |a|)
  {
    assert (a + m + b)[|a|..|a| + |m|] == m;
  }

  /** An error text holds the error mark right after its colour code. */
  lemma ErrorTextMarked(e: CreateError)
    ensures Contains(ErrorText(e), ErrorMark)
  {
    MarkAfter(Red, ErrorMark, " al crear dispositivo: " + Message(e) + Reset);
  }

  /** A record text holds no error cross when no value does. */
  lemma RecordUnmarked(kind: string, name: string, ip: Option<string>, mask: Option<string>,
                       layer: Option<string>, services: seq<string>)
    requires CreateCheck(name, services) == Pass && ValuesFree(kind, ip, mask, layer, '\U{274C}')
    ensures !Contains(Framed(Render(Entries(kind, name, ip, mask, layer, services))), ErrorMark)
  {
    var lines := Render(Entries(kind, name, ip, mask, layer, services));
    ForeignMarks();
    LinesFree(kind, name, ip, mask, layer, services, '\U{274C}');
    JoinChars(lines, "\n", '\U{274C}');
    assert '\U{274C}' in ErrorMark;
    CharNotContained(Framed(lines), ErrorMark, '\U{274C}');
  }

  /** The main menu keeps a created text exactly when the name and the services pass, if no value holds the error cross. */
  lemma StoredIff(kind: string, name: string, ip: Option<string>, mask: Option<string>,
                  layer: Option<string>, services: seq<string>)
    requires ValuesFree(kind, ip, mask, layer, '\U{274C}')
    ensures Stored(CreateRecord(kind, name, ip, mask, layer, services)) <==> CreateCheck(name, services) == Pass
  {
    match CreateCheck(name, services)
    case Fail(e) =>
      ErrorTextMarked(e);
    case Pass =>
      RecordUnmarked(kind, name, ip, mask, layer, services);
  }
}
