/**
 * Interactive-element records (src/browser/locator.py): the selector each
 * element is addressed by, the per-element record with its truncation,
 * enabled and label rules and its dropped None values, and the keep-first
 * de-duplication by selector.
 *
 * The browser is not modelled: every answer the page gives (the elements a
 * CSS query matches, visibility, tag, attribute values, text, labels, and
 * whether a call raised) is an input.
 */
module Locator {
  import opened Optional
  import opened Text
  import opened SeqFacts

  /** A value of an element record: a string, an integer or a boolean. */
  datatype Value = Str(s: string) | Int(i: int) | Flag(b: bool)

  /** An element record; a key the source would set to None is absent. */
  type Record = map<string, Value>

  /** The attribute snapshot the page returns for one element (`el.x || null`). */
  datatype Attributes = Attributes(
    id: Option<string>, name: Option<string>, inputType: Option<string>, placeholder: Option<string>,
    ariaLabel: Option<string>, role: Option<string>, value: Option<string>, href: Option<string>,
    title: Option<string>, alt: Option<string>, className: Option<string>)

  /** Python truthiness of an optional string: present and non-empty. */
  predicate Truthy(o: Option<string>)
  {
    o.Some? && o.value != ""
  }

  // ---------------------------------------------------------------------------
  // _generate_selector
  // ---------------------------------------------------------------------------

  /** An ID selector when the id is non-empty, else an attribute selector on the
      name, else the literal "unknown". Nothing is escaped. */
  function GenerateSelector(attrs: Attributes, tag: string): (r: string)
    ensures r == "unknown" <==> KindOf(attrs, tag) == Unknown
    ensures Truthy(attrs.id) ==> |r| == |attrs.id.value| + 1 && r[0] == '#' && r[1..] == attrs.id.value
    ensures !Truthy(attrs.id) && Truthy(attrs.name) ==> |r| > |tag| + 9 && r[..|tag|] == tag && r[|tag|..|tag| + 7] == "[name='"
  {
    if Truthy(attrs.id) then
      assert ("#" + attrs.id.value)[0] != "unknown"[0];
      "#" + attrs.id.value
    else if Truthy(attrs.name) then tag + "[name='" + attrs.name.value + "']"
    else "unknown"
  }

  /** What a selector string addresses. */
  datatype SelectorKind = ById(id: string) | ByName(tag: string, name: string) | Unknown

  /** The kind the priority rule picks for an element. */
  function KindOf(attrs: Attributes, tag: string): SelectorKind
  {
    if Truthy(attrs.id) then ById(attrs.id.value)
    else if Truthy(attrs.name) then ByName(tag, attrs.name.value)
    else Unknown
  }

  /** The first position of `c` in `s`. */
  function IndexOf(s: string, c: char): (r: Option<nat>)
    ensures r.None? ==> c !in s
    ensures r.Some? ==> r.value < |s| && s[r.value] == c && c !in s[..r.value]
  {
    if s == [] then None
    else if s[0] == c then Some(0)
    else
      var r := IndexOf(s[1..], c);
      if r.None? then None
      else
        assert s[..r.value + 1] == [s[0]] + s[1..][..r.value];
        Some(r.value + 1)
  }

  /** The first `c` of `a + b` is the head of `b` when `a` has none. */
  lemma {:induction false} IndexOfAfter(a: string, b: string, c: char)
    requires c !in a && b != [] && b[0] == c
    ensures IndexOf(a + b, c) == Some(|a|)
    decreases |a|
  {
    if a != [] {
      assert (a + b)[1..] == a[1..] + b;
      IndexOfAfter(a[1..], b, c);
    }
  }

  /** Reads a selector back: the inverse of GenerateSelector on the tags a page produces. */
  function ParseSelector(s: string): Option<SelectorKind>
  {
    if s == "unknown" then Some(Unknown)
    else if |s| > 0 && s[0] == '#' then Some(ById(s[1..]))
    else
      match IndexOf(s, '[')
      case None => None
      case Some(p) =>
        var rest := s[p..];
        if |rest| >= 9 && rest[..7] == "[name='" && rest[|rest| - 2..] == "']"
        then Some(ByName(s[..p], rest[7..|rest| - 2]))
        else None
  }

  /** A tag name as the page reports it: no '[' and no leading '#'. */
  predicate PlainTag(tag: string)
  {
    '[' !in tag && (tag == [] || tag[0] != '#')
  }

  /** The selector names its element's kind: reading it back gives the id,
      the tag and name, or "unknown", whichever the priority rule chose. */
  lemma ParseGenerated(attrs: Attributes, tag: string)
    requires PlainTag(tag)
    ensures ParseSelector(GenerateSelector(attrs, tag)) == Some(KindOf(attrs, tag))
  {
    var s := GenerateSelector(attrs, tag);
    if Truthy(attrs.id) {
      assert s[0] == '#' && s != "unknown";
      assert s[1..] == attrs.id.value;
    } else if Truthy(attrs.name) {
      ParseByName(tag, attrs.name.value);
    }
  }

  /** An attribute selector on the name reads back as that tag and name. */
  lemma ParseByName(tag: string, name: string)
    requires PlainTag(tag) && name != ""
    ensures ParseSelector(tag + "[name='" + name + "']") == Some(ByName(tag, name))
  {
    var rest := "[name='" + name + "']";
    var s := tag + rest;
    assert s == tag + "[name='" + name + "']";
    assert |s| >= 10 && s != "unknown";
    assert s[0] != '#' by {
      if tag == [] {
        assert s[0] == rest[0];
      } else {
        assert s[0] == tag[0];
      }
    }
    IndexOfAfter(tag, rest, '[');
    assert s[|tag|..] == rest && s[..|tag|] == tag;
    assert rest[..7] == "[name='" && rest[|rest| - 2..] == "']";
    assert rest[7..|rest| - 2] == name;
  }

  /**
   * Two elements get the same selector exactly when they have the same
   * non-empty id, or no id and the same tag and non-empty name, or neither
   * id nor name. This is what de-duplication by selector merges.
   */
  lemma SameSelectorIffSameKind(a1: Attributes, t1: string, a2: Attributes, t2: string)
    requires PlainTag(t1) && PlainTag(t2)
    ensures GenerateSelector(a1, t1) == GenerateSelector(a2, t2) <==> KindOf(a1, t1) == KindOf(a2, t2)
  {
    ParseGenerated(a1, t1);
    ParseGenerated(a2, t2);
  }

  // ---------------------------------------------------------------------------
  // The per-element record
  // ---------------------------------------------------------------------------

  /** The answer of a browser call: a value, or an exception. */
  datatype Probe<T> = Raised | Returned(value: T)

  /**
   * One element matched by a CSS query, as the page answers for it.
   * `failed` stands for an exception raised by the tag, visibility, enabled
   * or attribute calls, which drops the element.
   */
  datatype RawElement = RawElement(
    visible: bool, count: nat, failed: bool, tag: string, enabled: bool,
    inputValue: Probe<string>, innerText: Probe<string>, attrs: Attributes,
    labelFor: Probe<Option<string>>, enclosingLabel: Probe<Option<string>>)

  const MaxContents := 200

  /** Long inner text keeps its first 197 characters and gains "...". */
  function TruncateContents(s: string): (r: string)
    ensures |r| <= MaxContents
    ensures |s| <= MaxContents ==> r == s
    ensures |s| > MaxContents ==> r == s[..MaxContents - 3] + "..."
  {
    if |s| > MaxContents then s[..MaxContents - 3] + "..." else s
  }

  /** The tags whose contents are their input value, never truncated. */
  predicate ValueTag(tag: string)
  {
    tag == "input" || tag == "textarea"
  }

  /** The contents before stripping: the input value, or the inner text cut to
      200 characters; a call that raises leaves "". */
  function RawContents(e: RawElement): (r: string)
    ensures !ValueTag(e.tag) ==> |r| <= MaxContents
    ensures e.innerText.Returned? && !ValueTag(e.tag) && |e.innerText.value| <= MaxContents ==> r == e.innerText.value
    ensures ValueTag(e.tag) && e.inputValue.Returned? ==> r == e.inputValue.value
    ensures !ValueTag(e.tag) && e.innerText.Returned? ==> r == TruncateContents(e.innerText.value)
    ensures (ValueTag(e.tag) && e.inputValue.Raised?) || (!ValueTag(e.tag) && e.innerText.Raised?) ==> r == ""
  {
    if ValueTag(e.tag) then
      match e.inputValue
      case Raised => ""
      case Returned(v) => v
    else
      match e.innerText
      case Raised => ""
      case Returned(v) => TruncateContents(v)
  }

  /** The tags whose enabled state is asked of the page. */
  predicate EnabledProbed(tag: string)
  {
    tag in ["input", "button", "select", "textarea"]
  }

  function IsEnabled(e: RawElement): (r: bool)
    ensures !r ==> EnabledProbed(e.tag) && !e.enabled
    ensures EnabledProbed(e.tag) ==> r == e.enabled
  {
    if EnabledProbed(e.tag) then e.enabled else true
  }

  /** The tags that may sit inside an enclosing <label>. */
  predicate LabelledTag(tag: string)
  {
    tag in ["input", "textarea", "select"]
  }

  /**
   * The label before stripping: the text of `label[for=id]` when the element
   * has an id and such a label exists; otherwise, for form controls, the text
   * of the enclosing label when it is non-empty. An exception ends the lookup
   * with what was found so far.
   */
  function LabelText(e: RawElement): (r: Option<string>)
    ensures !Truthy(e.attrs.id) && !LabelledTag(e.tag) ==> r.None?
    ensures Truthy(e.attrs.id) && e.labelFor.Raised? ==> r.None?
    ensures Truthy(e.attrs.id) && e.labelFor.Returned? && Truthy(e.labelFor.value) ==> r == e.labelFor.value
    ensures Truthy(r) && !(Truthy(e.attrs.id) && e.labelFor.Returned? && Truthy(e.labelFor.value)) ==>
      LabelledTag(e.tag) && e.enclosingLabel == Returned(r)
    ensures (LabelledTag(e.tag) && !(Truthy(e.attrs.id) && e.labelFor.Raised?) &&
             !(Truthy(e.attrs.id) && e.labelFor.Returned? && Truthy(e.labelFor.value)) &&
             e.enclosingLabel.Returned? && Truthy(e.enclosingLabel.value)) ==>
      r == e.enclosingLabel.value
  {
    var fromFor :=
      if !Truthy(e.attrs.id) then Returned(None)
      else e.labelFor;
    match fromFor
    case Raised => None
    case Returned(found) =>
      if !Truthy(found) && LabelledTag(e.tag) then
        match e.enclosingLabel
        case Returned(Some(p)) => if p != "" then Some(p) else found
        case _ => found
      else found
  }

  function StrOf(o: Option<string>): Option<Value>
  {
    if o.Some? then Some(Str(o.value)) else None
  }

  /** The keys of `element_info`; `type` is not among them. */
  const InfoKeys: set<string> := {
    "id", "tag_name", "contents", "label", "placeholder", "aria_label", "role", "selector",
    "is_visible", "is_enabled", "name", "href", "title", "input_type" }

  /** The value `element_info` holds under key `k`, None included. */
  function Info(e: RawElement, k: string): (r: Option<Value>)
    ensures k !in InfoKeys ==> r.None?
    ensures k in {"tag_name", "contents", "selector", "is_visible", "is_enabled"} ==> r.Some?
    ensures k == "selector" ==> r == Some(Str(GenerateSelector(e.attrs, e.tag)))
  {
    if k == "id" then StrOf(e.attrs.id)
    else if k == "tag_name" then Some(Str(e.tag))
    else if k == "contents" then Some(Str(Strip(RawContents(e))))
    else if k == "label" then
      var found := LabelText(e);
      if Truthy(found) then Some(Str(Strip(found.value))) else None
    else if k == "placeholder" then StrOf(e.attrs.placeholder)
    else if k == "aria_label" then StrOf(e.attrs.ariaLabel)
    else if k == "role" then StrOf(e.attrs.role)
    else if k == "selector" then Some(Str(GenerateSelector(e.attrs, e.tag)))
    else if k == "is_visible" then Some(Flag(e.visible))
    else if k == "is_enabled" then Some(Flag(IsEnabled(e)))
    else if k == "name" then StrOf(e.attrs.name)
    else if k == "href" then StrOf(e.attrs.href)
    else if k == "title" then StrOf(e.attrs.title)
    else if k == "input_type" then (if e.tag == "input" then StrOf(e.attrs.inputType) else None)
    else None
  }

  /** `element_info` with its None-valued keys removed. */
  function BuildRecord(e: RawElement): (r: Record)
    ensures forall k :: k in r <==> k in InfoKeys && Info(e, k).Some?
    ensures forall k :: k in r ==> r[k] == Info(e, k).value
  {
    map k | k in InfoKeys && Info(e, k).Some? :: Info(e, k).value
  }

  /**
   * The keys that are never None are always in a record, with the tag, the
   * selector, visibility and the enabled state (true for every tag the page
   * is not asked about); contents are at most 200 characters long for tags
   * other than input and textarea; there is no `type` key.
   */
  lemma RecordFixedKeys(e: RawElement)
    ensures var r := BuildRecord(e);
      && "type" !in r
      && "selector" in r && r["selector"] == Str(GenerateSelector(e.attrs, e.tag))
      && "tag_name" in r && r["tag_name"] == Str(e.tag)
      && "is_visible" in r && r["is_visible"] == Flag(e.visible)
      && "is_enabled" in r && r["is_enabled"] == Flag(IsEnabled(e))
      && (!EnabledProbed(e.tag) ==> r["is_enabled"] == Flag(true))
      && "contents" in r && r["contents"].Str?
      && (!ValueTag(e.tag) ==> |r["contents"].s| <= MaxContents)
  {
    var c := RawContents(e);
    assert |Strip(c)| <= |c|;
    assert Info(e, "type") == None;
    assert Info(e, "selector") == Some(Str(GenerateSelector(e.attrs, e.tag)));
    assert Info(e, "tag_name") == Some(Str(e.tag));
    assert Info(e, "is_visible") == Some(Flag(e.visible));
    assert Info(e, "is_enabled") == Some(Flag(IsEnabled(e)));
    assert Info(e, "contents") == Some(Str(Strip(c)));
  }

  /**
   * Each attribute-derived key is present exactly when the page reported the
   * attribute, with its value; `input_type` only on inputs; `label` exactly
   * when a non-empty label was found.
   */
  lemma RecordOptionalKeys(e: RawElement)
    ensures var r := BuildRecord(e);
      && ("id" in r <==> e.attrs.id.Some?) && ("id" in r ==> r["id"] == Str(e.attrs.id.value))
      && ("name" in r <==> e.attrs.name.Some?) && ("name" in r ==> r["name"] == Str(e.attrs.name.value))
      && ("href" in r <==> e.attrs.href.Some?)
      && ("title" in r <==> e.attrs.title.Some?)
      && ("placeholder" in r <==> e.attrs.placeholder.Some?)
      && ("aria_label" in r <==> e.attrs.ariaLabel.Some?)
      && ("role" in r <==> e.attrs.role.Some?)
      && ("label" in r <==> Truthy(LabelText(e)))
      && ("input_type" in r <==> e.tag == "input" && e.attrs.inputType.Some?)
  {
    InfoOfAttributes(e);
    AttributeKey(e, "id", e.attrs.id);
    AttributeKey(e, "name", e.attrs.name);
    AttributeKey(e, "href", e.attrs.href);
    AttributeKey(e, "title", e.attrs.title);
    AttributeKey(e, "placeholder", e.attrs.placeholder);
    AttributeKey(e, "aria_label", e.attrs.ariaLabel);
    AttributeKey(e, "role", e.attrs.role);
    AttributeKey(e, "input_type", if e.tag == "input" then e.attrs.inputType else None);
  }

  /** The keys copied from attributes. */
  lemma InfoOfAttributes(e: RawElement)
    ensures Info(e, "id") == StrOf(e.attrs.id) && Info(e, "name") == StrOf(e.attrs.name)
    ensures Info(e, "href") == StrOf(e.attrs.href) && Info(e, "title") == StrOf(e.attrs.title)
    ensures Info(e, "placeholder") == StrOf(e.attrs.placeholder) && Info(e, "aria_label") == StrOf(e.attrs.ariaLabel)
    ensures Info(e, "role") == StrOf(e.attrs.role)
    ensures Info(e, "input_type") == StrOf(if e.tag == "input" then e.attrs.inputType else None)
    ensures Info(e, "label").Some? <==> Truthy(LabelText(e))
  {
  }

  /** A key copied from an attribute is present exactly when the attribute is. */
  lemma AttributeKey(e: RawElement, k: string, o: Option<string>)
    requires k in InfoKeys && Info(e, k) == StrOf(o)
    ensures k in BuildRecord(e) <==> o.Some?
    ensures k in BuildRecord(e) ==> BuildRecord(e)[k] == Str(o.value)
  {
  }

  // ---------------------------------------------------------------------------
  // list_interactive_elements
  // ---------------------------------------------------------------------------

  /** The CSS queries, in the order they are run: form controls, links,
      disclosure widgets, WAI-ARIA 1.2 widget roles, clickable containers and
      editable regions. */
  const Queries: seq<string> := [
    "input:not([type=\"hidden\"])", "textarea", "select", "button",
    "a[href]",
    "details", "summary",
    "[role=\"button\"]", "[role=\"link\"]", "[role=\"textbox\"]", "[role=\"searchbox\"]",
    "[role=\"combobox\"]", "[role=\"listbox\"]", "[role=\"option\"]", "[role=\"checkbox\"]",
    "[role=\"radio\"]", "[role=\"switch\"]", "[role=\"slider\"]", "[role=\"spinbutton\"]",
    "[role=\"menuitem\"]", "[role=\"menuitemcheckbox\"]", "[role=\"menuitemradio\"]", "[role=\"tab\"]",
    "div[onclick]", "span[onclick]",
    "[contenteditable=\"true\"]"]

  /** What one CSS query gives: its matches, or an exception that skips the query. */
  datatype Matches = QueryFailed | Found(elements: seq<RawElement>)

  /** An element that is neither visible nor counted is skipped, and so is one
      whose probing raised. */
  predicate Kept(e: RawElement)
  {
    (e.visible || e.count != 0) && !e.failed
  }

  /** The records of the elements `es`, in order. */
  function RecordsOf(es: seq<RawElement>): seq<Record>
  {
    if es == [] then []
    else RecordsOf(es[..|es| - 1]) + if Kept(es[|es| - 1]) then [BuildRecord(es[|es| - 1])] else []
  }

  /** `interactive_elements` after the queries `qs`. */
  function Collected(page: string -> Matches, qs: seq<string>): seq<Record>
  {
    if qs == [] then []
    else
      var m := page(qs[|qs| - 1]);
      Collected(page, qs[..|qs| - 1]) + if m.QueryFailed? then [] else RecordsOf(m.elements)
  }

  predicate AllHaveSelector(rs: seq<Record>)
  {
    forall k :: 0 <= k < |rs| ==> "selector" in rs[k]
  }

  lemma {:induction false} CollectedHaveSelectors(page: string -> Matches, qs: seq<string>)
    ensures AllHaveSelector(Collected(page, qs))
    decreases |qs|
  {
    if qs != [] {
      CollectedHaveSelectors(page, qs[..|qs| - 1]);
      var m := page(qs[|qs| - 1]);
      if m.Found? {
        RecordsHaveSelectors(m.elements);
      }
    }
  }

  lemma {:induction false} RecordsHaveSelectors(es: seq<RawElement>)
    ensures AllHaveSelector(RecordsOf(es))
    decreases |es|
  {
    if es != [] {
      var p := RecordsOf(es[..|es| - 1]);
      var x := es[|es| - 1];
      RecordsHaveSelectors(es[..|es| - 1]);
      if Kept(x) {
        assert Info(x, "selector").Some?;
        SelectorsSnoc(p, BuildRecord(x));
      } else {
        assert RecordsOf(es) == p + [];
      }
    }
  }

  /** The selectors occurring in `rs`. */
  function SelectorsIn(rs: seq<Record>): set<Value>
    requires AllHaveSelector(rs)
  {
    set k | 0 <= k < |rs| :: rs[k]["selector"]
  }

  /** `unique_elements` after the records `rs`: each one kept unless an earlier
      one carried the same selector. */
  function KeepFirst(rs: seq<Record>): (u: seq<Record>)
    requires AllHaveSelector(rs)
    ensures AllHaveSelector(u) && SelectorsIn(u) == SelectorsIn(rs) && |u| <= |rs|
  {
    if rs == [] then []
    else
      var p := rs[..|rs| - 1];
      var x := rs[|rs| - 1];
      var d := KeepFirst(p);
      SelectorsSnoc(p, x);
      assert rs == p + [x];
      if x["selector"] in SelectorsIn(d) then d
      else
        SelectorsSnoc(d, x);
        d + [x]
  }

  lemma SelectorsSnoc(rs: seq<Record>, x: Record)
    requires AllHaveSelector(rs) && "selector" in x
    ensures AllHaveSelector(rs + [x]) && SelectorsIn(rs + [x]) == SelectorsIn(rs) + {x["selector"]}
  {
    var u := rs + [x];
    assert forall k :: 0 <= k < |rs| ==> u[k] == rs[k];
    assert u[|rs|] == x;
    assert SelectorsIn(u) == SelectorsIn(rs) + {x["selector"]} by {
      forall v | v in SelectorsIn(u) ensures v in SelectorsIn(rs) + {x["selector"]} {
        var k :| 0 <= k < |u| && u[k]["selector"] == v;
        if k < |rs| { assert rs[k]["selector"] == v; }
      }
      forall v | v in SelectorsIn(rs) ensures v in SelectorsIn(u) {
        var k :| 0 <= k < |rs| && rs[k]["selector"] == v;
        assert u[k]["selector"] == v;
      }
      assert u[|rs|]["selector"] in SelectorsIn(u);
    }
  }

  /** De-duplication only drops records. */
  lemma {:induction false} KeepFirstFrom(rs: seq<Record>)
    requires AllHaveSelector(rs)
    ensures forall i :: 0 <= i < |KeepFirst(rs)| ==> KeepFirst(rs)[i] in rs
    decreases |rs|
  {
    if rs != [] {
      var p := rs[..|rs| - 1];
      KeepFirstFrom(p);
      assert forall r :: r in p ==> r in rs;
    }
  }

  /** Record `i` is the first of `rs` with its selector. */
  predicate FirstOfSelector(rs: seq<Record>, i: nat)
    requires AllHaveSelector(rs) && i < |rs|
  {
    forall j :: 0 <= j < i ==> rs[j]["selector"] != rs[i]["selector"]
  }

  /** The records of `rs` that come first with their selector, in order. */
  function FirstOccurrences(rs: seq<Record>, n: nat): seq<Record>
    requires AllHaveSelector(rs) && n <= |rs|
  {
    if n == 0 then []
    else FirstOccurrences(rs, n - 1) + if FirstOfSelector(rs, n - 1) then [rs[n - 1]] else []
  }

  /**
   * De-duplication keeps exactly the first record of each selector, in input
   * order, and no two kept records share a selector (so all "unknown"
   * records collapse into the first of them).
   */
  lemma {:induction false} KeepFirstMeaning(rs: seq<Record>)
    requires AllHaveSelector(rs)
    ensures KeepFirst(rs) == FirstOccurrences(rs, |rs|)
    ensures DistinctSelectors(KeepFirst(rs))
    decreases |rs|
  {
    if rs != [] {
      var p := rs[..|rs| - 1];
      var x := rs[|rs| - 1];
      KeepFirstMeaning(p);
      FirstOccurrencesPrefix(rs, |p|);
      assert x["selector"] in SelectorsIn(p) <==> !FirstOfSelector(rs, |p|) by {
        assert forall k :: 0 <= k < |p| ==> p[k] == rs[k];
      }
      var d := KeepFirst(p);
      if x["selector"] !in SelectorsIn(d) {
        DistinctSnoc(d, x);
      }
    }
  }

  /** No two records of `u` share a selector. */
  predicate DistinctSelectors(u: seq<Record>)
    requires AllHaveSelector(u)
  {
    forall i, j :: 0 <= i < j < |u| ==> u[i]["selector"] != u[j]["selector"]
  }

  lemma DistinctSnoc(d: seq<Record>, x: Record)
    requires AllHaveSelector(d) && DistinctSelectors(d) && "selector" in x && x["selector"] !in SelectorsIn(d)
    ensures AllHaveSelector(d + [x]) && DistinctSelectors(d + [x])
  {
    var u := d + [x];
    forall i, j | 0 <= i < j < |u| ensures u[i]["selector"] != u[j]["selector"] {
      assert u[i] == d[i];
      if j == |d| {
        assert d[i]["selector"] in SelectorsIn(d);
      } else {
        assert u[j] == d[j];
      }
    }
  }

  /** FirstOccurrences depends only on the records before `n`. */
  lemma {:induction false} FirstOccurrencesPrefix(rs: seq<Record>, n: nat)
    requires AllHaveSelector(rs) && n <= |rs|
    ensures AllHaveSelector(rs[..n]) && FirstOccurrences(rs[..n], n) == FirstOccurrences(rs, n)
    decreases n
  {
    if n > 0 {
      FirstOccurrencesPrefix(rs, n - 1);
      FirstOccurrencesPrefix(rs[..n], n - 1);
      assert rs[..n][..n - 1] == rs[..n - 1];
      assert FirstOfSelector(rs[..n], n - 1) <==> FirstOfSelector(rs, n - 1);
    }
  }

  /** At most one record with the "unknown" selector survives de-duplication. */
  lemma AtMostOneUnknown(rs: seq<Record>)
    requires AllHaveSelector(rs)
    ensures forall i, j :: 0 <= i < j < |KeepFirst(rs)| ==>
      !(KeepFirst(rs)[i]["selector"] == Str("unknown") && KeepFirst(rs)[j]["selector"] == Str("unknown"))
  {
    KeepFirstMeaning(rs);
  }

  /** The records list_interactive_elements returns for a page. */
  function InteractiveElements(page: string -> Matches): seq<Record>
  {
    CollectedHaveSelectors(page, Queries);
    KeepFirst(Collected(page, Queries))
  }

  /** `r` is the record of some page element. */
  ghost predicate IsBuilt(r: Record)
  {
    exists e :: r == BuildRecord(e)
  }

  /** Every record of `rs` is the record of some page element. */
  ghost predicate AllBuilt(rs: seq<Record>)
  {
    forall k :: 0 <= k < |rs| ==> IsBuilt(rs[k])
  }

  lemma AllBuiltAppend(a: seq<Record>, b: seq<Record>)
    requires AllBuilt(a) && AllBuilt(b)
    ensures AllBuilt(a + b)
  {
    forall k | 0 <= k < |a + b| ensures IsBuilt((a + b)[k]) {
      if k < |a| {
        assert (a + b)[k] == a[k];
      } else {
        assert (a + b)[k] == b[k - |a|];
      }
    }
  }

  /** Every collected record is the record of some page element. */
  lemma {:induction false} CollectedBuilt(page: string -> Matches, qs: seq<string>)
    ensures AllBuilt(Collected(page, qs))
    decreases |qs|
  {
    if qs != [] {
      var a := Collected(page, qs[..|qs| - 1]);
      CollectedBuilt(page, qs[..|qs| - 1]);
      var m := page(qs[|qs| - 1]);
      var b := if m.QueryFailed? then [] else RecordsOf(m.elements);
      if m.Found? {
        RecordsBuilt(m.elements);
      }
      AllBuiltAppend(a, b);
    }
  }

  lemma {:induction false} RecordsBuilt(es: seq<RawElement>)
    ensures AllBuilt(RecordsOf(es))
    decreases |es|
  {
    if es != [] {
      var x := es[|es| - 1];
      RecordsBuilt(es[..|es| - 1]);
      var b := if Kept(x) then [BuildRecord(x)] else [];
      assert Kept(x) ==> IsBuilt(b[0]);
      AllBuiltAppend(RecordsOf(es[..|es| - 1]), b);
    }
  }

  /**
   * What the tools receive: every record has a selector, none has a `type`
   * key, and an `id`, when present, is a string.
   */
  lemma InteractiveElementsFacts(page: string -> Matches)
    ensures var es := InteractiveElements(page);
      forall k :: 0 <= k < |es| ==> "selector" in es[k] && "type" !in es[k] && ("id" in es[k] ==> es[k]["id"].Str?)
  {
    var es: seq<Record> := InteractiveElements(page);
    var rs: seq<Record> := Collected(page, Queries);
    CollectedBuilt(page, Queries);
    CollectedHaveSelectors(page, Queries);
    KeepFirstFrom(rs);
    forall k | 0 <= k < |es|
      ensures "selector" in es[k] && "type" !in es[k] && ("id" in es[k] ==> es[k]["id"].Str?)
    {
      assert es[k] in rs;
      var j :| 0 <= j < |rs| && rs[j] == es[k];
      var e :| rs[j] == BuildRecord(e);
      RecordFixedKeys(e);
      RecordOptionalKeys(e);
    }
  }

  /** list_interactive_elements: run every query, build the records of the
      kept elements, then drop records whose selector was already seen. */
  method ListInteractiveElements(page: string -> Matches) returns (unique: seq<Record>)
    ensures unique == InteractiveElements(page)
  {
    var interactive: seq<Record> := [];
    for q := 0 to |Queries|
      invariant interactive == Collected(page, Queries[..q])
    {
      var query := Queries[q];
      CollectedStep(page, q);
      var matches := page(query);
      if matches.QueryFailed? {
        AppendNil(interactive);
        continue;
      }
      interactive := CollectMatches(interactive, matches.elements);
    }
    assert Queries[..|Queries|] == Queries;
    CollectedHaveSelectors(page, Queries);
    unique := Deduplicate(interactive);
  }

  /** The loop over one query's matches: append the record of each kept element. */
  method CollectMatches(before: seq<Record>, es: seq<RawElement>) returns (interactive: seq<Record>)
    ensures interactive == before + RecordsOf(es)
  {
    interactive := before;
    AppendNil(before);
    for k := 0 to |es|
      invariant interactive == before + RecordsOf(es[..k])
    {
      RecordsStep(es, k);
      var element := es[k];
      if !element.visible && element.count == 0 {
        AppendNil(RecordsOf(es[..k]));
        continue;
      }
      if element.failed {
        AppendNil(RecordsOf(es[..k]));
        continue;
      }
      Assoc(before, RecordsOf(es[..k]), [BuildRecord(element)]);
      interactive := interactive + [BuildRecord(element)];
    }
    assert es[..|es|] == es;
  }

  /** The de-duplication loop, with the set of selectors seen so far. */
  method Deduplicate(interactive: seq<Record>) returns (unique: seq<Record>)
    requires AllHaveSelector(interactive)
    ensures unique == KeepFirst(interactive)
  {
    unique := [];
    var seenSelectors: set<Value> := {};
    assert interactive[..0] == [];
    for i := 0 to |interactive|
      invariant AllHaveSelector(interactive[..i])
      invariant unique == KeepFirst(interactive[..i])
      invariant seenSelectors == SelectorsIn(unique)
    {
      KeepFirstStep(interactive, i);
      var elem := interactive[i];
      if elem["selector"] !in seenSelectors {
        SelectorsSnoc(unique, elem);
        seenSelectors := seenSelectors + {elem["selector"]};
        unique := unique + [elem];
      }
    }
    assert interactive[..|interactive|] == interactive;
  }

  /** The records after one more query. */
  lemma CollectedStep(page: string -> Matches, q: nat)
    requires q < |Queries|
    ensures Collected(page, Queries[..q + 1]) == Collected(page, Queries[..q])
      + if page(Queries[q]).QueryFailed? then [] else RecordsOf(page(Queries[q]).elements)
  {
    assert Queries[..q + 1][..q] == Queries[..q];
  }

  /** The records after one more matched element. */
  lemma RecordsStep(es: seq<RawElement>, k: nat)
    requires k < |es|
    ensures RecordsOf(es[..k + 1]) == RecordsOf(es[..k]) + if Kept(es[k]) then [BuildRecord(es[k])] else []
  {
    assert es[..k + 1][..k] == es[..k];
  }

  /** De-duplication after one more record. */
  lemma KeepFirstStep(rs: seq<Record>, i: nat)
    requires i < |rs| && AllHaveSelector(rs)
    ensures AllHaveSelector(rs[..i]) && AllHaveSelector(rs[..i + 1]) && "selector" in rs[i]
    ensures KeepFirst(rs[..i + 1]) ==
      if rs[i]["selector"] in SelectorsIn(KeepFirst(rs[..i])) then KeepFirst(rs[..i]) else KeepFirst(rs[..i]) + [rs[i]]
  {
    assert rs[..i + 1][..i] == rs[..i];
    assert rs[..i + 1][i] == rs[i];
  }
}
