/**
 * The line edit of `agregar_servicio_dispositivo` in the line-based variant
 * (`lacodiga.py`): a record text is split into lines, the first `SERVICIOS`
 * line gets the new label appended, or a new `SERVICIOS` line goes in before
 * the last separator rule, and the lines are joined again.
 */
module ServiceLines {
  import opened Wrappers
  import opened Text
  import opened Strings
  import opened Catalog
  import opened Validators
  import opened Rendering
  import Records

  /** The head of the services line, which the edit searches for. */
  function Marker(): string {
    Head(ServiciosKey)
  }

  // ---------------------------------------------------------------------------
  // Reading the services already listed
  // ---------------------------------------------------------------------------

  /** The first line at or after `i` that holds the marker. */
  function FirstMarkedFrom(lines: seq<string>, i: nat): (r: Option<nat>)
    ensures r.Some? ==> i <= r.value < |lines| && Contains(lines[r.value], Marker())
    decreases |lines| - i
  {
    if i >= |lines| then None
    else if Contains(lines[i], Marker()) then Some(i)
    else FirstMarkedFrom(lines, i + 1)
  }

  /** The search finds the first line at or after `i` that holds the marker, or reports that none does. */
  lemma {:induction false} FirstMarkedSpec(lines: seq<string>, i: nat)
    ensures var r := FirstMarkedFrom(lines, i);
            && (r.Some? ==> forall k :: i <= k < r.value ==> !Contains(lines[k], Marker()))
            && (r.None? ==> forall k :: i <= k < |lines| ==> !Contains(lines[k], Marker()))
    decreases |lines| - i
  {
    if i < |lines| && !Contains(lines[i], Marker()) {
      FirstMarkedSpec(lines, i + 1);
    }
  }

  function FirstMarked(lines: seq<string>): Option<nat> {
    FirstMarkedFrom(lines, 0)
  }

  /** `servicios_existentes_str`: the stripped text after the marker on the first services line, or empty. */
  function Existing(lines: seq<string>): string {
    match FirstMarked(lines)
    case None => ""
    case Some(j) => Strip(SecondPiece(lines[j], Marker()))
  }

  /** The last line down from `k` that holds the separator rule, or `|lines| - 1` if none does. */
  function LastRuleFrom(lines: seq<string>, k: int): (r: nat)
    requires |lines| >= 1 && -1 <= k < |lines|
    ensures r < |lines|
    decreases k + 1
  {
    if k < 0 then |lines| - 1
    else if Contains(lines[k], Separator) then k
    else LastRuleFrom(lines, k - 1)
  }

  /** The backward search finds the last line up to `k` that holds the rule, or falls back on the last line. */
  lemma {:induction false} LastRuleSpec(lines: seq<string>, k: int)
    requires |lines| >= 1 && -1 <= k < |lines|
    ensures var r := LastRuleFrom(lines, k);
            && ((exists i :: 0 <= i <= k && Contains(lines[i], Separator)) ==>
                  r <= k && Contains(lines[r], Separator) && forall i :: r < i <= k ==> !Contains(lines[i], Separator))
            && ((forall i :: 0 <= i <= k ==> !Contains(lines[i], Separator)) ==> r == |lines| - 1)
    decreases k + 1
  {
    if k >= 0 && !Contains(lines[k], Separator) {
      LastRuleSpec(lines, k - 1);
    }
  }

  /** `idx_insercion`: the last line holding the separator rule, or the last line. */
  function LastRule(lines: seq<string>): nat
    requires |lines| >= 1
  {
    LastRuleFrom(lines, |lines| - 1)
  }

  /**
   * The edit without its guard: the first services line gets `svc` appended
   * to the existing text, or a services line holding `svc` alone is inserted
   * at the last separator rule.
   */
  function Rewrite(lines: seq<string>, svc: string): seq<string>
    requires |lines| >= 1
  {
    match FirstMarked(lines)
    case Some(j) => lines[j := FieldLine(ServiciosKey, Strip(Existing(lines) + " " + svc))]
    case None =>
      var at := LastRule(lines);
      lines[..at] + [FieldLine(ServiciosKey, svc)] + lines[at..]
  }

  /** With a services line, the edit replaces that line and keeps every other line. */
  lemma RewriteReplaces(lines: seq<string>, svc: string, j: nat)
    requires |lines| >= 1 && FirstMarked(lines) == Some(j)
    ensures var r := Rewrite(lines, svc);
            |r| == |lines| && r[j] == FieldLine(ServiciosKey, Strip(Existing(lines) + " " + svc)) &&
            forall k :: 0 <= k < |lines| && k != j ==> r[k] == lines[k]
  {
  }

  /**
   * Without a services line, the edit inserts exactly one services line, at
   * the last separator rule, and every other line keeps its order.
   */
  lemma RewriteInserts(lines: seq<string>, svc: string)
    requires |lines| >= 1 && FirstMarked(lines) == None
    ensures var r := Rewrite(lines, svc);
            var at := LastRule(lines);
            |r| == |lines| + 1 && r[at] == FieldLine(ServiciosKey, svc) &&
            (forall k :: 0 <= k < at ==> r[k] == lines[k]) &&
            (forall k :: at <= k < |lines| ==> r[k + 1] == lines[k])
  {
  }

  // ---------------------------------------------------------------------------
  // The two guards
  // ---------------------------------------------------------------------------

  /**
   * The edit as written: `svc in existing.split(' ')` refuses the label. No
   * catalogue label passes that test, since every label holds a space.
   */
  function ServiceEditAsWritten(record: string, svc: string): Option<string> {
    var lines := Split(record, '\n');
    if svc in Split(Existing(lines), ' ') then None
    else Some(Join(Rewrite(lines, svc), "\n"))
  }

  /** The label of `labels` that `t` starts with, as a whole word, trying the labels from `i` on. */
  function LabelPrefixFrom(labels: seq<string>, t: string, i: nat): (r: Option<string>)
    requires i <= |labels|
    ensures r.Some? ==> r.value in labels && StartsWith(t, r.value) &&
                        (|t| == |r.value| || t[|r.value|] == ' ')
    decreases |labels| - i
  {
    if i == |labels| then None
    else
      var l := labels[i];
      if StartsWith(t, l) && (|t| == |l| || t[|l|] == ' ') then Some(l)
      else LabelPrefixFrom(labels, t, i + 1)
  }

  /** Reads a space-joined list of `labels` back into the labels. */
  function ParseLabels(labels: seq<string>, t: string): seq<string>
    decreases |t|
  {
    match LabelPrefixFrom(labels, t, 0)
    case None => []
    case Some(l) => if |t| == |l| then [l] else [l] + ParseLabels(labels, t[|l| + 1..])
  }

  /** The edit with the intended guard: a label already on the services line is refused. */
  function ServiceEdit(record: string, svc: string): Option<string> {
    var lines := Split(record, '\n');
    if svc in ParseLabels(ServiceLabels, Existing(lines)) then None
    else Some(Join(Rewrite(lines, svc), "\n"))
  }

  /** The duplicate guard the edit is written with: as written, or the intended one. */
  predicate Listed(variant: Variant, existing: string, svc: string) {
    match variant
    case AsWritten => svc in Split(existing, ' ')
    case Corrected => svc in ParseLabels(ServiceLabels, existing)
  }

  /** The edit of `variant`: the as-written edit or the one with the intended guard. */
  function ServiceEditOf(variant: Variant, record: string, svc: string): (r: Option<string>)
    ensures r == if variant == AsWritten then ServiceEditAsWritten(record, svc) else ServiceEdit(record, svc)
  {
    var lines := Split(record, '\n');
    if Listed(variant, Existing(lines), svc) then None
    else Some(Join(Rewrite(lines, svc), "\n"))
  }

  // ---------------------------------------------------------------------------
  // The catalogue labels as words
  // ---------------------------------------------------------------------------

  /** Every label is an emoji, a space and a word: it holds a space, and its ends are not whitespace. */
  lemma LabelShape(i: nat)
    requires i < |ServiceLabels|
    ensures var l := ServiceLabels[i];
            |l| >= 2 && !IsSpace(l[0]) && !IsSpace(l[|l| - 1]) && ' ' in l && '\U{1F6E0}' !in l && '\n' !in l
  {
  }

  /** The labels tell themselves apart by their first character. */
  lemma LabelHeads(i: nat, j: nat)
    requires i < |ServiceLabels| && j < |ServiceLabels|
    ensures i != j ==> ServiceLabels[i][0] != ServiceLabels[j][0]
  {
  }

  /** A text that starts with label `l` as a whole word is read as that label. */
  lemma {:induction false} PrefixFound(t: string, l: string, i: nat, m: nat)
    requires i <= m < |ServiceLabels| && ServiceLabels[m] == l
    requires StartsWith(t, l) && (|t| == |l| || t[|l|] == ' ')
    ensures LabelPrefixFrom(ServiceLabels, t, i) == Some(l)
    decreases m - i
  {
    if i < m {
      LabelShape(i);
      LabelShape(m);
      LabelHeads(i, m);
      assert t[0] == l[0];
      assert !StartsWith(t, ServiceLabels[i]);
      PrefixFound(t, l, i + 1, m);
    }
  }

  /** The empty text holds no labels. */
  lemma ParseEmpty()
    ensures ParseLabels(ServiceLabels, "") == []
  {
    forall i | 0 <= i < |ServiceLabels|
      ensures !StartsWith("", ServiceLabels[i])
    {
      LabelShape(i);
    }
  }

  /** A space-joined list of labels is read first as its first label. */
  lemma PrefixOfJoin(s: seq<string>)
    requires s != [] && s[0] in ServiceLabels
    ensures LabelPrefixFrom(ServiceLabels, Join(s, " "), 0) == Some(s[0])
    ensures |s| > 1 ==> |Join(s, " ")| != |s[0]| && Join(s, " ")[|s[0]| + 1..] == Join(s[1..], " ")
  {
    var t := Join(s, " ");
    var l := s[0];
    if |s| > 1 {
      JoinFirst(s, " ");
      assert t[|l|] == ' ';
    }
    PrefixFound(t, l, 0, IndexOf(ServiceLabels, l));
  }

  /** One step of reading labels. */
  lemma ParseStep(labels: seq<string>, t: string, l: string)
    requires LabelPrefixFrom(labels, t, 0) == Some(l)
    ensures ParseLabels(labels, t) == if |t| == |l| then [l] else [l] + ParseLabels(labels, t[|l| + 1..])
  {
  }

  /** Reading the space-joined labels gives the labels back. */
  lemma {:induction false} ParseJoined(s: seq<string>)
    requires forall i :: 0 <= i < |s| ==> s[i] in ServiceLabels
    ensures ParseLabels(ServiceLabels, Join(s, " ")) == s
    decreases |s|
  {
    if s == [] {
      ParseEmpty();
    } else {
      PrefixOfJoin(s);
      ParseStep(ServiceLabels, Join(s, " "), s[0]);
      assert |s| == 1 ==> Join(s, " ") == s[0];
      if |s| > 1 {
        ParseJoined(s[1..]);
      }
    }
  }

  /** Text that neither starts nor ends with whitespace and holds neither a line break nor the services emoji. */
  predicate Tidy(l: string) {
    l != [] && !IsSpace(l[0]) && !IsSpace(l[|l| - 1]) && ServicesMark !in l && '\n' !in l
  }

  predicate AllTidy(s: seq<string>) {
    forall i :: 0 <= i < |s| ==> Tidy(s[i])
  }

  lemma LabelWords(s: seq<string>)
    requires forall i :: 0 <= i < |s| ==> s[i] in ServiceLabels
    ensures AllTidy(s)
  {
    forall i | 0 <= i < |s|
      ensures Tidy(s[i])
    {
      LabelShape(IndexOf(ServiceLabels, s[i]));
    }
  }

  /** Words joined by spaces make a word. */
  lemma JoinedWords(s: seq<string>)
    requires s != [] && AllTidy(s)
    ensures Tidy(Join(s, " "))
  {
    JoinEnds(s, " ");
    JoinChars(s, " ", ServicesMark);
    JoinChars(s, " ", '\n');
  }

  /** No piece of a text split at spaces is a label, since every label holds a space. */
  lemma LabelNotPiece(t: string, svc: string)
    requires svc in ServiceLabels
    ensures svc !in Split(t, ' ')
  {
    LabelShape(IndexOf(ServiceLabels, svc));
    SplitPiecesFree(t, ' ');
  }

  // ---------------------------------------------------------------------------
  // The edit on a created record
  // ---------------------------------------------------------------------------

  /** The first character of the services emoji, which no other line of a record holds. */
  const ServicesMark: char := '\U{1F6E0}'

  /** No value of a record holds a line break or the services emoji. */
  predicate Plain(kind: string, ip: Option<string>, mask: Option<string>, layer: Option<string>) {
    ValuesFree(kind, ip, mask, layer, '\n') && ValuesFree(kind, ip, mask, layer, ServicesMark)
  }

  /** The services emoji is in the services head and in no other head. */
  lemma MarkInHeads(k: Key)
    ensures ServicesMark in Head(k) <==> k == ServiciosKey
  {
    assert Head(k)[5] == Emoji(k)[0];
    assert ServicesMark !in Cyan && ServicesMark !in Bold && ServicesMark !in Reset;
    match k
    case TipoKey =>
    case NombreKey =>
    case IpKey =>
    case MascaraKey =>
    case CapaKey =>
    case ServiciosKey =>
  }

  lemma MarkOutsideRule()
    ensures ServicesMark !in Separator
  {
    assert ServicesMark !in Bar;
  }

  /** The pairs of a record are those of the same record without services, then the services pair if any. */
  lemma EntriesSplit(kind: string, name: string, ip: Option<string>, mask: Option<string>,
                     layer: Option<string>, services: seq<string>)
    ensures var base := Entries(kind, name, ip, mask, layer, []);
            && Entries(kind, name, ip, mask, layer, services) ==
               base + (if services != [] then [(ServiciosKey, Join(services, " "))] else [])
            && forall i :: 0 <= i < |base| ==> base[i].0 != ServiciosKey
  {
  }

  /** The values before the services hold no character that the name, the type, the address, the mask and the layer all lack. */
  lemma BaseFree(kind: string, name: string, ip: Option<string>, mask: Option<string>, layer: Option<string>, c: char)
    requires ValidateShortName(name) == Pass && !ShortNameChar(c) && ValuesFree(kind, ip, mask, layer, c)
    ensures var base := Entries(kind, name, ip, mask, layer, []);
            forall i :: 0 <= i < |base| ==> c !in base[i].1
  {
    assert c !in name;
  }

  lemma RenderAppend(a: seq<(Key, string)>, b: seq<(Key, string)>)
    ensures Render(a + b) == Render(a) + Render(b)
  {
  }

  /** The services line of a record, if it lists any services. */
  function ServicesTail(services: seq<string>): seq<string> {
    if services != [] then [FieldLine(ServiciosKey, Join(services, " "))] else []
  }

  /** A record that passes its check is the framed lines of its pairs before the services, then its services line. */
  lemma CreatedFramed(kind: string, name: string, ip: Option<string>, mask: Option<string>,
                      layer: Option<string>, services: seq<string>)
    requires CreateCheck(name, services) == Pass
    ensures CreateRecord(kind, name, ip, mask, layer, services) ==
            Framed(Render(Entries(kind, name, ip, mask, layer, [])) + ServicesTail(services))
  {
    var tail := if services != [] then [(ServiciosKey, Join(services, " "))] else [];
    EntriesSplit(kind, name, ip, mask, layer, services);
    RenderAppend(Entries(kind, name, ip, mask, layer, []), tail);
    assert Render(tail) == ServicesTail(services);
  }

  /** Splitting framed lines free of line breaks at the line breaks gives the framing lines around them. */
  lemma SplitFramed(lines: seq<string>)
    requires |lines| >= 1 && forall i :: 0 <= i < |lines| ==> '\n' !in lines[i]
    ensures Split(Framed(lines), '\n') == ["", Separator] + lines + [Separator]
  {
    var parts := ["", Separator] + lines + [Separator];
    assert '\n' !in Bar;
    FramedJoin(lines);
    SplitJoin(parts, '\n');
  }

  /** The lines of a record before its services hold neither a line break nor the services emoji. */
  lemma BaseLinesFree(base: seq<(Key, string)>)
    requires forall i :: 0 <= i < |base| ==> base[i].0 != ServiciosKey && ServicesMark !in base[i].1 && '\n' !in base[i].1
    ensures forall i :: 0 <= i < |base| ==> ServicesMark !in Render(base)[i] && '\n' !in Render(base)[i]
  {
    forall i | 0 <= i < |base|
      ensures ServicesMark !in Render(base)[i] && '\n' !in Render(base)[i]
    {
      MarkInHeads(base[i].0);
      MarksOutsideHead(base[i].0);
      assert Render(base)[i] == Head(base[i].0) + " " + base[i].1;
    }
  }

  /** On the framed lines of a record, the services line, if there is one, is the first line holding the marker. */
  lemma FramedMarked(base: seq<(Key, string)>, tail: seq<string>)
    requires forall i :: 0 <= i < |base| ==> ServicesMark !in Render(base)[i]
    requires tail == [] || (|tail| == 1 && StartsWith(tail[0], Marker()))
    ensures var p := ["", Separator] + Render(base) + tail + [Separator];
            FirstMarked(p) == if tail == [] then None else Some(|p| - 2)
  {
    var p := ["", Separator] + Render(base) + tail + [Separator];
    var mk := Marker();
    assert mk[5] == ServicesMark;
    MarkOutsideRule();
    forall k | 0 <= k < 2 + |base|
      ensures !Contains(p[k], mk)
    {
      CharNotContained(p[k], mk, ServicesMark);
    }
    CharNotContained(Separator, mk, ServicesMark);
    if tail != [] {
      StartsWithContains(p[|p| - 2], mk);
    }
    FirstMarkedSpec(p, 0);
  }

  /** A services line starts with the marker. */
  lemma ServicesLineMarked(t: string)
    ensures StartsWith(FieldLine(ServiciosKey, t), Marker())
  {
    var line := FieldLine(ServiciosKey, t);
    assert line == Marker() + (" " + t);
    assert line[..|Marker()|] == Marker();
  }

  /** The existing services of a services line carrying trimmed text free of the emoji are that text. */
  lemma ExistingOfServices(p: seq<string>, j: nat, t: string)
    requires FirstMarked(p) == Some(j) && p[j] == FieldLine(ServiciosKey, t)
    requires t != [] && !IsSpace(t[0]) && !IsSpace(t[|t| - 1]) && ServicesMark !in t
    ensures Existing(p) == t
  {
    var line := p[j];
    var mk := Marker();
    assert line == mk + (" " + t);
    assert line[..|mk|] == mk;
    StartsWithContains(line, mk);
    var rest := line[|mk|..];
    assert rest == " " + t;
    assert mk[5] == ServicesMark;
    CharNotContained(rest, mk, ServicesMark);
    StripLeadingSpace(t);
  }

  /** Without a services line the existing services are empty. */
  lemma ExistingUnmarked(p: seq<string>)
    requires FirstMarked(p) == None
    ensures Existing(p) == ""
  {
  }

  /** With its services line at `j`, the edit replaces line `j`. */
  lemma RewriteMarked(p: seq<string>, svc: string, j: nat)
    requires |p| >= 1 && FirstMarked(p) == Some(j)
    ensures Rewrite(p, svc) == p[j := FieldLine(ServiciosKey, Strip(Existing(p) + " " + svc))]
  {
  }

  /** Without a services line, and with the rule as the last line, the edit inserts before the last line. */
  lemma RewriteUnmarked(p: seq<string>, svc: string)
    requires |p| >= 1 && FirstMarked(p) == None && Contains(p[|p| - 1], Separator)
    ensures Rewrite(p, svc) == p[..|p| - 1] + [FieldLine(ServiciosKey, svc)] + [p[|p| - 1]]
  {
  }

  lemma ReplaceBeforeLast(a: seq<string>, x: string, y: string, z: string)
    ensures (a + [x] + [z])[|a| := y] == a + [y] + [z]
  {
  }

  /** On framed lines ending in a services line with trimmed text `t`, the edit replaces that line with `t` and `svc`. */
  lemma RewriteFramedListed(base: seq<(Key, string)>, t: string, svc: string)
    requires forall i :: 0 <= i < |base| ==> ServicesMark !in Render(base)[i]
    requires t != [] && !IsSpace(t[0]) && !IsSpace(t[|t| - 1]) && ServicesMark !in t
    ensures var p := ["", Separator] + Render(base) + [FieldLine(ServiciosKey, t)] + [Separator];
            Existing(p) == t &&
            Rewrite(p, svc) == ["", Separator] + Render(base) + [FieldLine(ServiciosKey, Strip(t + " " + svc))] + [Separator]
  {
    var p := ["", Separator] + Render(base) + [FieldLine(ServiciosKey, t)] + [Separator];
    ServicesLineMarked(t);
    FramedMarked(base, [FieldLine(ServiciosKey, t)]);
    ExistingOfServices(p, |p| - 2, t);
    RewriteMarked(p, svc, |p| - 2);
    ReplaceBeforeLast(["", Separator] + Render(base), FieldLine(ServiciosKey, t),
                      FieldLine(ServiciosKey, Strip(t + " " + svc)), Separator);
  }

  /** On framed lines without a services line, the edit inserts one before the closing rule. */
  lemma RewriteFramedUnlisted(base: seq<(Key, string)>, svc: string)
    requires forall i :: 0 <= i < |base| ==> ServicesMark !in Render(base)[i]
    ensures var p := ["", Separator] + Render(base) + [Separator];
            Existing(p) == "" &&
            Rewrite(p, svc) == ["", Separator] + Render(base) + [FieldLine(ServiciosKey, svc)] + [Separator]
  {
    var p := ["", Separator] + Render(base) + [Separator];
    FramedMarked(base, []);
    ExistingUnmarked(p);
    assert p[|p| - 1][..|Separator|] == Separator;
    StartsWithContains(p[|p| - 1], Separator);
    RewriteUnmarked(p, svc);
    assert p[..|p| - 1] == ["", Separator] + Render(base);
  }

  /** The lines of a created record: the lines before the services hold no services emoji, and none holds a line break. */
  lemma CreatedParts(kind: string, name: string, ip: Option<string>, mask: Option<string>,
                     layer: Option<string>, services: seq<string>)
    requires CreateCheck(name, services) == Pass && Plain(kind, ip, mask, layer)
    ensures var base := Entries(kind, name, ip, mask, layer, []);
            && (forall i :: 0 <= i < |base| ==> ServicesMark !in Render(base)[i])
            && Split(CreateRecord(kind, name, ip, mask, layer, services), '\n') ==
               ["", Separator] + Render(base) + ServicesTail(services) + [Separator]
  {
    var base := Entries(kind, name, ip, mask, layer, []);
    BaseFree(kind, name, ip, mask, layer, ServicesMark);
    BaseFree(kind, name, ip, mask, layer, '\n');
    EntriesSplit(kind, name, ip, mask, layer, []);
    BaseLinesFree(base);
    CreatedFramed(kind, name, ip, mask, layer, services);
    if services != [] {
      var t := Join(services, " ");
      LabelWords(services);
      JoinedWords(services);
      MarksOutsideHead(ServiciosKey);
      assert FieldLine(ServiciosKey, t) == Head(ServiciosKey) + " " + t;
    }
    SplitFramed(Render(base) + ServicesTail(services));
  }

  lemma TidyAppend(services: seq<string>, svc: string)
    requires AllTidy(services) && Tidy(svc)
    ensures AllTidy(services + [svc])
  {
    var more := services + [svc];
    forall i | 0 <= i < |more|
      ensures Tidy(more[i])
    {
      if i < |services| {
        assert more[i] == services[i];
      }
    }
  }

  /** A strip of the join of tidy words, a space and one more tidy word is the join with that word. */
  lemma JoinOneMore(services: seq<string>, svc: string)
    requires services != [] && AllTidy(services) && Tidy(svc)
    ensures Strip(Join(services, " ") + " " + svc) == Join(services + [svc], " ")
  {
    var more := services + [svc];
    JoinAppend(services, [svc], " ");
    assert Join([svc], " ") == svc;
    TidyAppend(services, svc);
    JoinedWords(more);
    StripTrimmed(Join(more, " "));
  }

  /** The services line for a single label is that label. */
  lemma ServicesTailOne(svc: string)
    ensures ServicesTail([] + [svc]) == [FieldLine(ServiciosKey, svc)]
  {
    assert [] + [svc] == [svc];
  }

  /** With no services listed, the edit reads no services and inserts the services line. */
  lemma RewriteTailUnlisted(base: seq<(Key, string)>, svc: string)
    requires forall i :: 0 <= i < |base| ==> ServicesMark !in Render(base)[i]
    ensures var p := ["", Separator] + Render(base) + ServicesTail([]) + [Separator];
            Existing(p) == "" &&
            Rewrite(p, svc) == ["", Separator] + Render(base) + ServicesTail([] + [svc]) + [Separator]
  {
    var head := ["", Separator] + Render(base);
    assert head + ServicesTail([]) == head;
    RewriteFramedUnlisted(base, svc);
    ServicesTailOne(svc);
  }

  /** With services listed, the edit reads their joined text and appends `svc` to it. */
  lemma RewriteTailListed(base: seq<(Key, string)>, services: seq<string>, svc: string)
    requires forall i :: 0 <= i < |base| ==> ServicesMark !in Render(base)[i]
    requires services != [] && AllTidy(services) && Tidy(svc)
    ensures var p := ["", Separator] + Render(base) + ServicesTail(services) + [Separator];
            Existing(p) == Join(services, " ") &&
            Rewrite(p, svc) == ["", Separator] + Render(base) + ServicesTail(services + [svc]) + [Separator]
  {
    var t := Join(services, " ");
    JoinedWords(services);
    RewriteFramedListed(base, t, svc);
    JoinOneMore(services, svc);
  }

  /** On the framed lines of a record, the edit reads the services as their joined text and adds `svc` to the services line. */
  lemma RewriteTail(base: seq<(Key, string)>, services: seq<string>, svc: string)
    requires forall i :: 0 <= i < |base| ==> ServicesMark !in Render(base)[i]
    requires AllTidy(services) && Tidy(svc)
    ensures var p := ["", Separator] + Render(base) + ServicesTail(services) + [Separator];
            Existing(p) == Join(services, " ") &&
            Rewrite(p, svc) == ["", Separator] + Render(base) + ServicesTail(services + [svc]) + [Separator]
  {
    if services == [] {
      RewriteTailUnlisted(base, svc);
    } else {
      RewriteTailListed(base, services, svc);
    }
  }

  lemma Regroup(a: seq<string>, b: seq<string>, c: seq<string>, d: seq<string>)
    ensures a + b + c + d == a + (b + c) + d
  {
  }

  /** A record whose services with `svc` last pass the check passes it without `svc`, and all of them are labels. */
  lemma PrefixChecked(name: string, services: seq<string>, svc: string)
    requires CreateCheck(name, services + [svc]) == Pass
    ensures CreateCheck(name, services) == Pass && svc in ServiceLabels
    ensures forall i :: 0 <= i < |services| ==> services[i] in ServiceLabels
  {
    var more := services + [svc];
    assert forall i :: 0 <= i < |services| ==> services[i] == more[i];
    assert more[|services|] == svc;
  }

  /**
   * On a created record the edit reads the listed services as their joined
   * text, and its rewrite is the record created with the new service last.
   */
  lemma RewriteCreated(kind: string, name: string, ip: Option<string>, mask: Option<string>,
                       layer: Option<string>, services: seq<string>, svc: string)
    requires CreateCheck(name, services + [svc]) == Pass && Plain(kind, ip, mask, layer)
    ensures var p := Split(CreateRecord(kind, name, ip, mask, layer, services), '\n');
            Existing(p) == Join(services, " ") &&
            Join(Rewrite(p, svc), "\n") == CreateRecord(kind, name, ip, mask, layer, services + [svc])
  {
    var more := services + [svc];
    PrefixChecked(name, services, svc);
    var base := Entries(kind, name, ip, mask, layer, []);
    CreatedParts(kind, name, ip, mask, layer, services);
    LabelWords(services);
    LabelWords([svc]);
    assert Tidy([svc][0]);
    RewriteTail(base, services, svc);
    var lines := Render(base) + ServicesTail(more);
    Regroup(["", Separator], Render(base), ServicesTail(more), [Separator]);
    FramedJoin(lines);
    CreatedFramed(kind, name, ip, mask, layer, more);
  }

  // ---------------------------------------------------------------------------
  // The guard, as written and as intended
  // ---------------------------------------------------------------------------

  /** The edit as written appends any catalogue label to a created record, a label it already lists included. */
  lemma AsWrittenAppends(kind: string, name: string, ip: Option<string>, mask: Option<string>,
                         layer: Option<string>, services: seq<string>, svc: string)
    requires CreateCheck(name, services + [svc]) == Pass && Plain(kind, ip, mask, layer)
    ensures ServiceEditAsWritten(CreateRecord(kind, name, ip, mask, layer, services), svc) ==
            Some(CreateRecord(kind, name, ip, mask, layer, services + [svc]))
  {
    PrefixChecked(name, services, svc);
    RewriteCreated(kind, name, ip, mask, layer, services, svc);
    LabelNotPiece(Join(services, " "), svc);
  }

  /** The duplicate: adding a label to the record that lists only that label gives a record listing it twice. */
  lemma AsWrittenDuplicates(kind: string, name: string, ip: Option<string>, mask: Option<string>,
                            layer: Option<string>, svc: string)
    requires CreateCheck(name, [svc]) == Pass && Plain(kind, ip, mask, layer)
    ensures var edited := ServiceEditAsWritten(CreateRecord(kind, name, ip, mask, layer, [svc]), svc);
            edited.Some? && DecodeRecord(edited.value) == Some(Entries(kind, name, ip, mask, layer, [svc, svc])) &&
            Entries(kind, name, ip, mask, layer, [svc, svc])[|Entries(kind, name, ip, mask, layer, [svc, svc])| - 1] ==
              (ServiciosKey, svc + " " + svc)
  {
    assert [svc] + [svc] == [svc, svc];
    assert CreateCheck(name, [svc, svc]) == Pass;
    AsWrittenAppends(kind, name, ip, mask, layer, [svc], svc);
    DecodeCreated(kind, name, ip, mask, layer, [svc, svc]);
    EntryRules(kind, name, ip, mask, layer, [svc, svc]);
  }

  /**
   * The edit with the intended guard refuses exactly the labels a created
   * record already lists, and otherwise gives the record created with the
   * new label last.
   */
  lemma EditCreated(kind: string, name: string, ip: Option<string>, mask: Option<string>,
                    layer: Option<string>, services: seq<string>, svc: string)
    requires CreateCheck(name, services + [svc]) == Pass && Plain(kind, ip, mask, layer)
    ensures ServiceEdit(CreateRecord(kind, name, ip, mask, layer, services), svc) ==
            if svc in services then None else Some(CreateRecord(kind, name, ip, mask, layer, services + [svc]))
  {
    PrefixChecked(name, services, svc);
    RewriteCreated(kind, name, ip, mask, layer, services, svc);
    if services == [] {
      ParseEmpty();
    } else {
      ParseJoined(services);
    }
  }

  // ---------------------------------------------------------------------------
  // The services field of the dictionary variants, read back by label
  // ---------------------------------------------------------------------------

  /** No label begins `Ninguno`, so the label parser reads nothing from it. */
  lemma ParseNoServices()
    ensures ParseLabels(ServiceLabels, Records.NoServices) == []
  {
    forall i | 0 <= i < |ServiceLabels|
      ensures !StartsWith(Records.NoServices, ServiceLabels[i])
    {
      assert ServiceLabels[i][0] != 'N';
    }
  }

  /** The sorted set of some labels holds only labels. */
  lemma SortedSetOfLabels(xs: seq<string>)
    requires forall i :: 0 <= i < |xs| ==> xs[i] in ServiceLabels
    ensures forall i :: 0 <= i < |SortedSet(xs)| ==> SortedSet(xs)[i] in ServiceLabels
  {
    var s := SortedSet(xs);
    forall i | 0 <= i < |s| ensures s[i] in ServiceLabels {
      assert s[i] in s;
      var j :| 0 <= j < |xs| && xs[j] == s[i];
    }
  }

  /** A non-empty list of labels, stored as its sorted set joined by spaces, reads back as that set. */
  lemma JoinedSetReadBack(xs: seq<string>)
    requires forall i :: 0 <= i < |xs| ==> xs[i] in ServiceLabels
    ensures ParseLabels(ServiceLabels, Join(SortedSet(xs), " ")) == SortedSet(xs)
  {
    SortedSetOfLabels(xs);
    ParseJoined(SortedSet(xs));
  }

  /**
   * The intended read-back of the dictionary variants' services field: read
   * with the label parser rather than split on spaces, the stored field gives
   * back exactly the labels it was built from, sorted and each once, so the
   * add menu would offer exactly the labels not yet present.
   */
  lemma ServicesFieldReadBack(xs: seq<string>)
    requires forall i :: 0 <= i < |xs| ==> xs[i] in ServiceLabels
    ensures ParseLabels(ServiceLabels, Records.ServicesField(xs)) == SortedSet(xs)
    ensures forall l :: l in ParseLabels(ServiceLabels, Records.ServicesField(xs)) <==> l in xs
  {
    var field := Records.ServicesField(xs);
    FieldReadBack(xs, field);
    SortedSetMembers(ParseLabels(ServiceLabels, field), xs);
  }

  /** A list equal to the sorted set of `xs` holds exactly the elements of `xs`. */
  lemma SortedSetMembers(r: seq<string>, xs: seq<string>)
    requires r == SortedSet(xs)
    ensures forall l :: l in r <==> l in xs
  {
    forall l ensures l in r <==> l in xs {
      assert l in SortedSet(xs) <==> l in xs;
    }
  }

  /** The two shapes of the stored field, the placeholder and the joined set, both read back as the set. */
  lemma FieldReadBack(xs: seq<string>, field: string)
    requires forall i :: 0 <= i < |xs| ==> xs[i] in ServiceLabels
    requires field == Records.ServicesField(xs)
    ensures ParseLabels(ServiceLabels, field) == SortedSet(xs)
  {
    if xs == [] {
      ParseNoServices();
    } else {
      JoinedSetReadBack(xs);
    }
  }
}
