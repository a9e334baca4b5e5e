/**
 * The element tools (src/tools/interaction.py): the listing tool that
 * rebuilds the shared id-keyed cache and groups the elements by type, the
 * guards the click, input and context tools check before touching the
 * page, and the text the context tool assembles.
 *
 * Whether a page is connected is a parameter; the page's elements are
 * those list_interactive_elements returns for it.
 */
module Interaction {
  import opened Optional
  import opened Text
  import opened Locator
  import opened ElementsCache

  // ---------------------------------------------------------------------------
  // Rebuilding the cache
  // ---------------------------------------------------------------------------

  /** Every record has an `id` key, so `element['id']` never raises. */
  predicate AllHaveId(es: seq<Record>)
  {
    forall i :: 0 <= i < |es| ==> "id" in es[i]
  }

  /** `new_cache` after storing each record under its id, in order. */
  function IdIndex(es: seq<Record>): (m: map<Value, Record>)
    requires AllHaveId(es)
    ensures |m| <= |es|
    ensures es != [] ==> var x := es[|es| - 1]; x["id"] in m && m[x["id"]] == x
  {
    if es == [] then map[]
    else
      var x := es[|es| - 1];
      IdIndex(es[..|es| - 1])[x["id"] := x]
  }

  /** Record `i` is the last of `es` carrying id `k`. */
  predicate LastWithId(es: seq<Record>, i: int, k: Value)
    requires AllHaveId(es)
  {
    0 <= i < |es| && es[i]["id"] == k && forall j :: i < j < |es| ==> es[j]["id"] != k
  }

  /** Storing one more record. */
  lemma IdIndexStep(es: seq<Record>, i: nat)
    requires i < |es| && AllHaveId(es[..i]) && "id" in es[i]
    ensures AllHaveId(es[..i + 1]) && IdIndex(es[..i + 1]) == IdIndex(es[..i])[es[i]["id"] := es[i]]
  {
    assert es[..i + 1][..i] == es[..i];
  }

  /** The keys of the rebuilt cache are exactly the records' ids. */
  lemma {:induction false} IdIndexKeys(es: seq<Record>)
    requires AllHaveId(es)
    ensures forall k :: k in IdIndex(es) <==> exists i :: 0 <= i < |es| && es[i]["id"] == k
    decreases |es|
  {
    if es != [] {
      var p := es[..|es| - 1];
      IdIndexKeys(p);
      forall k ensures k in IdIndex(es) <==> exists i :: 0 <= i < |es| && es[i]["id"] == k {
        if k in IdIndex(p) {
          var i :| 0 <= i < |p| && p[i]["id"] == k;
          assert es[i]["id"] == k;
        }
        if exists i :: 0 <= i < |es| && es[i]["id"] == k {
          var i :| 0 <= i < |es| && es[i]["id"] == k;
          if i < |p| {
            assert p[i]["id"] == k;
          }
        }
      }
    }
  }

  /** Each key of the rebuilt cache maps to the last record carrying that id. */
  lemma {:induction false} IdIndexLast(es: seq<Record>)
    requires AllHaveId(es)
    ensures forall k :: k in IdIndex(es) ==> exists i :: LastWithId(es, i, k) && IdIndex(es)[k] == es[i]
    decreases |es|
  {
    if es != [] {
      var p := es[..|es| - 1];
      var x := es[|es| - 1];
      IdIndexLast(p);
      forall k | k in IdIndex(es)
        ensures exists i :: LastWithId(es, i, k) && IdIndex(es)[k] == es[i]
      {
        if k == x["id"] {
          assert LastWithId(es, |es| - 1, k);
        } else {
          assert k in IdIndex(p);
          var i :| LastWithId(p, i, k) && IdIndex(p)[k] == p[i];
          LastWithIdExtend(es, i, k);
        }
      }
    }
  }

  /** The last record with id `k` stays last when a record with another id follows. */
  lemma LastWithIdExtend(es: seq<Record>, i: int, k: Value)
    requires AllHaveId(es) && es != [] && es[|es| - 1]["id"] != k
    requires AllHaveId(es[..|es| - 1]) && LastWithId(es[..|es| - 1], i, k)
    ensures LastWithId(es, i, k) && es[i] == es[..|es| - 1][i]
  {
    var p := es[..|es| - 1];
    forall j | i < j < |es| ensures es[j]["id"] != k {
      if j < |p| {
        assert es[j] == p[j];
      }
    }
  }

  // ---------------------------------------------------------------------------
  // Grouping by type
  // ---------------------------------------------------------------------------

  /** `elem.get('type', 'unknown')`. */
  function TypeOf(r: Record): Value
  {
    if "type" in r then r["type"] else Str("unknown")
  }

  /** One entry of `by_type`: a type and its records. */
  datatype Group = Group(key: Value, members: seq<Record>)

  /** The records of `es` of type `k`, in order. */
  function OfType(es: seq<Record>, k: Value): seq<Record>
  {
    if es == [] then []
    else OfType(es[..|es| - 1], k) + if TypeOf(es[|es| - 1]) == k then [es[|es| - 1]] else []
  }

  /** The group keys, in insertion order. */
  function Keys(gs: seq<Group>): (ks: seq<Value>)
    ensures |ks| == |gs| && forall j :: 0 <= j < |gs| ==> ks[j] == gs[j].key
  {
    if gs == [] then [] else [gs[0].key] + Keys(gs[1..])
  }

  /** Appends `x` to the group of key `t`, opening that group at the end when there is none. */
  function AddTo(gs: seq<Group>, t: Value, x: Record): (u: seq<Group>)
    ensures |gs| <= |u| <= |gs| + 1
    decreases |gs|
  {
    if gs == [] then [Group(t, [x])]
    else if gs[0].key == t then [Group(t, gs[0].members + [x])] + gs[1..]
    else [gs[0]] + AddTo(gs[1..], t, x)
  }

  /** `by_type` after `es`, as its entries in insertion order. */
  function GroupsOf(es: seq<Record>): (gs: seq<Group>)
    ensures |gs| <= |es| && (es != [] ==> gs != [])
  {
    if es == [] then [] else AddTo(GroupsOf(es[..|es| - 1]), TypeOf(es[|es| - 1]), es[|es| - 1])
  }

  /** The number of records in all groups. */
  function Total(gs: seq<Group>): nat
  {
    if gs == [] then 0 else |gs[0].members| + Total(gs[1..])
  }

  /** Groups whose keys are pairwise distinct. */
  predicate DistinctKeys(gs: seq<Group>)
  {
    forall i, j :: 0 <= i < j < |gs| ==> gs[i].key != gs[j].key
  }

  /** Adding a record keeps the keys, or appends its type as a new last key. */
  lemma {:induction false} AddToKeyList(gs: seq<Group>, t: Value, x: Record)
    ensures Keys(AddTo(gs, t, x)) == if t in Keys(gs) then Keys(gs) else Keys(gs) + [t]
    decreases |gs|
  {
    if gs != [] {
      var rest := gs[1..];
      assert gs == [gs[0]] + rest;
      KeysCons(gs[0], rest);
      if gs[0].key != t {
        AddToKeyList(rest, t, x);
        KeysCons(gs[0], AddTo(rest, t, x));
      } else {
        KeysCons(Group(t, gs[0].members + [x]), rest);
      }
    }
  }

  /** Adding a record keeps the keys distinct. */
  lemma AddToKeys(gs: seq<Group>, t: Value, x: Record)
    requires DistinctKeys(gs)
    ensures Keys(AddTo(gs, t, x)) == if t in Keys(gs) then Keys(gs) else Keys(gs) + [t]
    ensures DistinctKeys(AddTo(gs, t, x))
  {
    AddToKeyList(gs, t, x);
    var u := AddTo(gs, t, x);
    forall i, j | 0 <= i < j < |u| ensures u[i].key != u[j].key {
      assert u[i].key == Keys(u)[i] && u[j].key == Keys(u)[j];
      if j < |gs| {
        assert Keys(gs)[i] == gs[i].key && Keys(gs)[j] == gs[j].key;
      } else {
        assert Keys(gs)[i] == gs[i].key;
      }
    }
  }

  lemma KeysCons(g: Group, gs: seq<Group>)
    ensures Keys([g] + gs) == [g.key] + Keys(gs)
  {
    assert ([g] + gs)[1..] == gs;
  }

  /** Adding a record adds one to the total. */
  lemma {:induction false} AddToTotal(gs: seq<Group>, t: Value, x: Record)
    ensures Total(AddTo(gs, t, x)) == Total(gs) + 1
    decreases |gs|
  {
    if gs != [] && gs[0].key != t {
      AddToTotal(gs[1..], t, x);
      assert AddTo(gs, t, x)[1..] == AddTo(gs[1..], t, x);
    }
  }

  /** Adding a record leaves every group of another type where and as it was. */
  lemma {:induction false} AddToOthers(gs: seq<Group>, t: Value, x: Record)
    ensures var u := AddTo(gs, t, x);
      forall j :: 0 <= j < |u| && u[j].key != t ==> j < |gs| && u[j] == gs[j]
    decreases |gs|
  {
    if gs != [] && gs[0].key != t {
      AddToOthers(gs[1..], t, x);
    }
  }

  /** Adding a record appends it to the group of its type, or opens that group with it. */
  lemma {:induction false} AddToOwn(gs: seq<Group>, t: Value, x: Record)
    requires DistinctKeys(gs)
    ensures var u := AddTo(gs, t, x);
      forall j :: 0 <= j < |u| && u[j].key == t ==> u[j].members == if j < |gs| then gs[j].members + [x] else [x]
    decreases |gs|
  {
    if gs != [] && gs[0].key != t {
      AddToOwn(gs[1..], t, x);
    }
  }

  /** The types that occur in `es`. */
  predicate Occurs(es: seq<Record>, k: Value)
  {
    exists i :: 0 <= i < |es| && TypeOf(es[i]) == k
  }

  /** The keys of the groups are distinct and are exactly the types that occur. */
  lemma {:induction false} GroupKeys(es: seq<Record>)
    ensures DistinctKeys(GroupsOf(es)) && |GroupsOf(es)| <= |es|
    ensures forall k :: k in Keys(GroupsOf(es)) <==> Occurs(es, k)
    decreases |es|
  {
    if es != [] {
      var p := es[..|es| - 1];
      var x := es[|es| - 1];
      GroupKeys(p);
      var gs := GroupsOf(p);
      AddToKeys(gs, TypeOf(x), x);
      assert GroupsOf(es) == AddTo(gs, TypeOf(x), x);
      forall k ensures k in Keys(GroupsOf(es)) <==> Occurs(es, k) {
        OccursLast(es, k);
      }
    }
  }

  /** A type occurs in `es` when it occurs before the last record or is the last record's. */
  lemma OccursLast(es: seq<Record>, k: Value)
    requires es != []
    ensures Occurs(es, k) <==> Occurs(es[..|es| - 1], k) || k == TypeOf(es[|es| - 1])
  {
    var p := es[..|es| - 1];
    if Occurs(es, k) {
      var i :| 0 <= i < |es| && TypeOf(es[i]) == k;
      if i < |p| {
        assert TypeOf(p[i]) == k;
      }
    }
    if Occurs(p, k) {
      var i :| 0 <= i < |p| && TypeOf(p[i]) == k;
      assert TypeOf(es[i]) == k;
    }
    if k == TypeOf(es[|es| - 1]) {
      assert TypeOf(es[|es| - 1]) == k;
    }
  }

  /** Each group holds the records of its type, in input order. */
  lemma {:induction false} GroupMembers(es: seq<Record>)
    ensures forall j :: 0 <= j < |GroupsOf(es)| ==> GroupsOf(es)[j].members == OfType(es, GroupsOf(es)[j].key)
    decreases |es|
  {
    if es != [] {
      var p := es[..|es| - 1];
      var x := es[|es| - 1];
      var t := TypeOf(x);
      GroupMembers(p);
      GroupKeys(p);
      var gs := GroupsOf(p);
      var u := AddTo(gs, t, x);
      assert GroupsOf(es) == u;
      AddToKeys(gs, t, x);
      AddToOthers(gs, t, x);
      AddToOwn(gs, t, x);
      forall j | 0 <= j < |u| ensures u[j].members == OfType(es, u[j].key) {
        var k := u[j].key;
        assert OfType(es, k) == OfType(p, k) + if t == k then [x] else [];
        if k == t && j >= |gs| {
          assert t !in Keys(gs);
          NoneOfType(p, t);
        }
      }
    }
  }

  /** A type that does not occur selects nothing. */
  lemma {:induction false} NoneOfType(es: seq<Record>, k: Value)
    requires !Occurs(es, k)
    ensures OfType(es, k) == []
    decreases |es|
  {
    if es != [] {
      var p := es[..|es| - 1];
      assert !Occurs(p, k);
      NoneOfType(p, k);
    }
  }

  /** Group sizes add up to the number of records. */
  lemma {:induction false} GroupSizes(es: seq<Record>)
    ensures Total(GroupsOf(es)) == |es|
    decreases |es|
  {
    if es != [] {
      var p := es[..|es| - 1];
      GroupSizes(p);
      AddToTotal(GroupsOf(p), TypeOf(es[|es| - 1]), es[|es| - 1]);
    }
  }

  /** With no record carrying a `type` key, everything lands in the one group "unknown". */
  lemma {:induction false} AllUnknown(es: seq<Record>)
    requires forall i :: 0 <= i < |es| ==> "type" !in es[i]
    ensures GroupsOf(es) == if es == [] then [] else [Group(Str("unknown"), es)]
    decreases |es|
  {
    if es != [] {
      var p := es[..|es| - 1];
      AllUnknown(p);
      assert p + [es[|es| - 1]] == es;
    }
  }

  /** The keys and members after one more record. */
  lemma GroupStep(es: seq<Record>, i: nat)
    requires i < |es|
    ensures es[..i + 1][..i] == es[..i]
    ensures Keys(GroupsOf(es[..i + 1])) ==
      if TypeOf(es[i]) in Keys(GroupsOf(es[..i])) then Keys(GroupsOf(es[..i])) else Keys(GroupsOf(es[..i])) + [TypeOf(es[i])]
    ensures forall k :: OfType(es[..i + 1], k) == OfType(es[..i], k) + if TypeOf(es[i]) == k then [es[i]] else []
  {
    assert es[..i + 1][..i] == es[..i];
    GroupKeys(es[..i]);
    AddToKeys(GroupsOf(es[..i]), TypeOf(es[i]), es[i]);
  }

  /** The grouping loop: `by_type` as a map plus the insertion order of its keys. */
  method GroupByType(elements: seq<Record>) returns (groups: seq<Group>)
    ensures groups == GroupsOf(elements)
  {
    var byType: map<Value, seq<Record>> := map[];
    var order: seq<Value> := [];
    for i := 0 to |elements|
      invariant order == Keys(GroupsOf(elements[..i]))
      invariant forall k :: k in byType <==> k in order
      invariant forall k :: k in byType ==> byType[k] == OfType(elements[..i], k)
    {
      GroupStep(elements, i);
      var elemType := TypeOf(elements[i]);
      if elemType !in byType {
        NoneOfTypeKeys(elements[..i], elemType);
        byType := byType[elemType := []];
        order := order + [elemType];
      }
      byType := byType[elemType := byType[elemType] + [elements[i]]];
    }
    assert elements[..|elements|] == elements;
    GroupMembers(elements);
    groups := seq(|order|, j requires 0 <= j < |order| => Group(order[j], byType[order[j]]));
  }

  /** A type that is not yet a key selects nothing so far. */
  lemma NoneOfTypeKeys(es: seq<Record>, k: Value)
    requires k !in Keys(GroupsOf(es))
    ensures OfType(es, k) == []
  {
    GroupKeys(es);
    NoneOfType(es, k);
  }

  // ---------------------------------------------------------------------------
  // The listing tool
  // ---------------------------------------------------------------------------

  const NotConnectedMessage := "Error: Browser not connected."
  const NoElementsMessage := "No interactive elements found on the page."
  /** The text of the KeyError raised by `element['id']`. */
  const MissingIdMessage := "Error getting interactive elements: 'id'"

  /** What the listing tool answers. The text of a successful listing (a
      Python rendering of the groups) is summarised by its count and groups. */
  datatype Listing = NotConnected | Failed(message: string) | NoElements | Listed(count: nat, groups: seq<Group>)

  /** The message of every answer other than a successful listing. */
  function ListingMessage(l: Listing): (m: Option<string>)
    ensures m.None? <==> l.Listed?
  {
    match l
    case NotConnected => Some(NotConnectedMessage)
    case Failed(msg) => Some(msg)
    case NoElements => Some(NoElementsMessage)
    case Listed(_, _) => None
  }

  /**
   * get_interactive_elements: with no page, answer "not connected" and leave
   * the cache alone. Otherwise clear the current dictionary in place, index
   * the elements by id into a new dictionary and install it; a record without
   * an id raises KeyError, which leaves the cleared dictionary in place.
   */
  method GetInteractiveElements(page: Option<string -> Matches>, manager: ElementsCacheManager) returns (out: Listing)
    modifies manager, manager.cache
    ensures page.None? ==> out == NotConnected && manager.cache == old(manager.cache) && manager.cache.entries == old(manager.cache.entries)
    ensures page.Some? ==> old(manager.cache).entries == map[]
    ensures page.Some? && !AllHaveId(InteractiveElements(page.value)) ==>
      out == Failed(MissingIdMessage) && manager.cache == old(manager.cache)
    ensures page.Some? && AllHaveId(InteractiveElements(page.value)) ==>
      var es := InteractiveElements(page.value);
      && fresh(manager.cache) && manager.cache.entries == IdIndex(es)
      && out == if es == [] then NoElements else Listed(|es|, GroupsOf(es))
  {
    if page.None? {
      return NotConnected;
    }
    var elements := ListInteractiveElements(page.value);
    manager.ClearCache();
    var newCache := new Dict(map[]);
    for i := 0 to |elements|
      invariant AllHaveId(elements[..i]) && newCache.entries == IdIndex(elements[..i])
      invariant manager.cache == old(manager.cache) && manager.cache.entries == map[]
    {
      if "id" !in elements[i] {
        assert !AllHaveId(elements);
        return Failed(MissingIdMessage);
      }
      IdIndexStep(elements, i);
      newCache.Store(elements[i]["id"], elements[i]);
    }
    assert elements[..|elements|] == elements;
    manager.SetCache(newCache);
    if elements == [] {
      return NoElements;
    }
    var groups := GroupByType(elements);
    out := Listed(|elements|, groups);
  }

  /**
   * On a page whose elements all have a DOM id, a refresh leaves one cache
   * entry per distinct id, each a string; the listing puts every element
   * in the single group "unknown", because no record has a `type` key.
   */
  lemma RefreshedListing(page: string -> Matches)
    requires AllHaveId(InteractiveElements(page)) && InteractiveElements(page) != []
    ensures var es := InteractiveElements(page);
      && (forall k :: k in IdIndex(es) ==> k.Str?)
      && GroupsOf(es) == [Group(Str("unknown"), es)]
  {
    var es := InteractiveElements(page);
    InteractiveElementsFacts(page);
    IdIndexKeys(es);
    AllUnknown(es);
  }

  // ---------------------------------------------------------------------------
  // Tool guards
  // ---------------------------------------------------------------------------

  datatype Tool = ClickElement | InputText | ElementContext

  /** The "not connected" answer of each tool. */
  function NotConnectedFor(tool: Tool): string
  {
    if tool == ClickElement then "Error: Browser not connected. Use the browser manager to connect first."
    else NotConnectedMessage
  }

  /** The "not found" answer of each tool for `elementId`. */
  function NotFoundFor(tool: Tool, elementId: int): string
  {
    var id := IntToDecimal(elementId);
    match tool
    case ClickElement => "Error: Element ID " + id + " not found. Use 'get_interactive_elements' first to get the list of elements."
    case InputText => "Error: Element ID " + id + " not found. Use 'get_interactive_elements' first."
    case ElementContext => "Error: Element ID " + id + " not found."
  }

  /** Either a refusal, or the cached record the tool goes on to use. */
  datatype Guarded = Refused(message: string) | Proceed(info: Record)

  /**
   * The guards every element tool checks before touching the page: first a
   * connected page, then the id (an integer) among the cache keys.
   */
  function Guard(tool: Tool, connected: bool, cache: map<Value, Record>, elementId: int): (g: Guarded)
    ensures g.Proceed? ==> connected && Int(elementId) in cache && g.info == cache[Int(elementId)]
    ensures !connected ==> g == Refused(NotConnectedFor(tool))
    ensures connected && Int(elementId) !in cache ==> g == Refused(NotFoundFor(tool, elementId))
  {
    if !connected then Refused(NotConnectedFor(tool))
    else if Int(elementId) !in cache then Refused(NotFoundFor(tool, elementId))
    else Proceed(cache[Int(elementId)])
  }

  /**
   * A tool reaches the page exactly when it is connected and the id is
   * cached, and then with that id's record; a missing page is reported
   * before a missing id, and "not found" names the id in decimal.
   */
  lemma GuardMeaning(tool: Tool, connected: bool, cache: map<Value, Record>, elementId: int)
    ensures Guard(tool, connected, cache, elementId).Proceed? <==> connected && Int(elementId) in cache
    ensures Guard(tool, connected, cache, elementId).Proceed? ==> Guard(tool, connected, cache, elementId).info == cache[Int(elementId)]
    ensures !connected ==> Guard(tool, connected, cache, elementId) == Refused(NotConnectedFor(tool))
    ensures connected && Int(elementId) !in cache ==>
      var m := Guard(tool, connected, cache, elementId).message;
      |m| > 18 && m[..18] == "Error: Element ID " && m[18..18 + |IntToDecimal(elementId)|] == IntToDecimal(elementId)
  {
    if connected && Int(elementId) !in cache {
      var id := IntToDecimal(elementId);
      var m := NotFoundFor(tool, elementId);
      match tool
      case ClickElement =>
        SliceParts("Error: Element ID ", id, " not found. Use 'get_interactive_elements' first to get the list of elements.");
      case InputText =>
        SliceParts("Error: Element ID ", id, " not found. Use 'get_interactive_elements' first.");
      case ElementContext =>
        SliceParts("Error: Element ID ", id, " not found.");
    }
  }

  /** The pieces of a three-part concatenation are where they were put. */
  lemma SliceParts(a: string, b: string, c: string)
    requires c != []
    ensures |a + b + c| > |a| + |b|
    ensures (a + b + c)[..|a|] == a && (a + b + c)[|a|..|a| + |b|] == b
  {
  }

  /**
   * After a refresh the cache is keyed by string ids while the tools look
   * up integers, so every tool refuses every id with "not found".
   */
  lemma ToolsMissAfterRefresh(tool: Tool, page: string -> Matches, elementId: int)
    requires AllHaveId(InteractiveElements(page))
    ensures Guard(tool, true, IdIndex(InteractiveElements(page)), elementId) == Refused(NotFoundFor(tool, elementId))
  {
    var es := InteractiveElements(page);
    InteractiveElementsFacts(page);
    IdIndexKeys(es);
  }

  /** The guard steps of the click, input and context tools, reading the shared cache. */
  method CheckGuards(tool: Tool, connected: bool, manager: ElementsCacheManager, elementId: int) returns (g: Guarded)
    ensures g == Guard(tool, connected, manager.cache.entries, elementId)
  {
    var cache := manager.GetCache();
    if !connected {
      return Refused(NotConnectedFor(tool));
    }
    if Int(elementId) !in cache.entries {
      return Refused(NotFoundFor(tool, elementId));
    }
    g := Proceed(cache.entries[Int(elementId)]);
  }

  // ---------------------------------------------------------------------------
  // The context report
  // ---------------------------------------------------------------------------

  /** One ancestor as the page's parent walk describes it. */
  datatype ContextEntry = ContextEntry(
    level: int, tagName: string, id: Option<string>, className: Option<string>,
    text: Option<string>, hasText: bool)

  const ClassLimit := 50
  const TextSubstringSize := 200
  const StopNote := "\n  (Stopped: found text-containing block)"

  /** Python truthiness of a record value. */
  predicate ValueTruthy(v: Value)
  {
    match v
    case Str(s) => s != ""
    case Int(i) => i != 0
    case Flag(b) => b
  }

  /** `str(v)` of a record value. */
  function Show(v: Value): string
  {
    match v
    case Str(s) => s
    case Int(i) => IntToDecimal(i)
    case Flag(b) => if b then "True" else "False"
  }

  /** `str(info.get(k))`: "None" for a missing key. */
  function ShowKey(info: Record, k: string): string
  {
    if k in info then Show(info[k]) else "None"
  }

  /** The class name as shown: cut to 50 characters plus "..." when longer. */
  function ShownClass(c: string): (r: string)
    ensures |c| <= ClassLimit ==> r == c
    ensures |c| > ClassLimit ==> |r| == ClassLimit + 3 && r[..ClassLimit] == c[..ClassLimit] && r[ClassLimit..] == "..."
  {
    if |c| > ClassLimit then c[..ClassLimit] + "..." else c
  }

  /** The text as shown: its first 200 characters (all of it when shorter),
      always followed by "...". */
  function ShownText(t: string): (r: string)
    ensures |r| >= 3 && r[|r| - 3..] == "..."
    ensures var n := |r| - 3; n == (if |t| < TextSubstringSize then |t| else TextSubstringSize) && r[..n] == t[..n]
  {
    (if |t| > TextSubstringSize then t[..TextSubstringSize] else t) + "..."
  }

  predicate Present(o: Option<string>)
  {
    o.Some? && o.value != ""
  }

  /** The pieces one entry adds to the report; an absent piece is "". */
  function HeadPart(c: ContextEntry): string
  {
    "\nLevel " + IntToDecimal(c.level) + ": <" + c.tagName + ">"
  }

  function IdPart(c: ContextEntry): string
  {
    if Present(c.id) then " id='" + c.id.value + "'" else ""
  }

  function ClassPart(c: ContextEntry): string
  {
    if Present(c.className) then " class='" + ShownClass(c.className.value) + "'" else ""
  }

  function TextPart(c: ContextEntry): string
  {
    if Present(c.text) then "\n  Text: " + ShownText(c.text.value) else ""
  }

  function StopPart(c: ContextEntry): string
  {
    if c.hasText then StopNote else ""
  }

  /** What one entry adds to the report. */
  function EntryText(c: ContextEntry): (r: string)
    ensures var h := "\nLevel " + IntToDecimal(c.level) + ": <" + c.tagName + ">";
      |h| <= |r| && r[..|h|] == h
  {
    HeadPart(c) + IdPart(c) + ClassPart(c) + TextPart(c) + StopPart(c)
  }

  /** `s` ends with `suffix`. */
  predicate EndsWith(s: string, suffix: string)
  {
    |suffix| <= |s| && s[|s| - |suffix|..] == suffix
  }

  /**
   * An entry ends with the stop note exactly when the block had text: every
   * other piece ends in '>', '\'' or '.', never in the note's ')'.
   */
  lemma StopNoteIffText(c: ContextEntry)
    ensures EndsWith(EntryText(c), StopNote) <==> c.hasText
  {
    var e := EntryText(c);
    var before := HeadPart(c) + IdPart(c) + ClassPart(c) + TextPart(c);
    assert e == before + StopPart(c);
    if !c.hasText {
      assert e == before;
      assert StopNote[|StopNote| - 1] == ')';
      if TextPart(c) != "" {
        var t := ShownText(c.text.value);
        assert t[|t| - 1] == '.';
        assert e[|e| - 1] == t[|t| - 1];
      } else if ClassPart(c) != "" {
        assert e[|e| - 1] == '\'';
      } else if IdPart(c) != "" {
        assert e[|e| - 1] == '\'';
      } else {
        assert e[|e| - 1] == '>';
      }
    }
  }

  /** The fixed head of the report; the selector shown is the cached record's. */
  function ContextHeader(elementId: int, info: Record): (r: string)
    requires "selector" in info
    ensures var head := "Context for element " + IntToDecimal(elementId) + " (";
      |head| <= |r| && r[..|head|] == head
    ensures EndsWith(r, "Selector: " + Show(info["selector"]) + "\n\n" + "Parent hierarchy:\n")
    ensures EndsWith(r, "Parent hierarchy:\n")
  {
    var shown :=
      if "label" in info && ValueTruthy(info["label"]) then Show(info["label"])
      else if "contents" in info then Show(info["contents"])
      else "N/A";
    var head := "Context for element " + IntToDecimal(elementId) + " (";
    var body := ShowKey(info, "type") + "):\n\n" + "Element: " + shown + "\n";
    var selectorLine := "Selector: " + Show(info["selector"]) + "\n\n";
    var tail := "Parent hierarchy:\n";
    HeadAndTail(head, body, selectorLine + tail);
    SuffixOfSuffix(head + body + (selectorLine + tail), selectorLine, tail);
    head + body + (selectorLine + tail)
  }

  /** A string ending in `a + b` ends in `b`. */
  lemma SuffixOfSuffix(s: string, a: string, b: string)
    requires EndsWith(s, a + b)
    ensures EndsWith(s, b)
  {
    assert s[|s| - |b|..] == (a + b)[|a|..];
  }

  /** The first and last of three concatenated pieces are where they were put. */
  lemma HeadAndTail(a: string, b: string, c: string)
    ensures |a| <= |a + b + c| && (a + b + c)[..|a|] == a
    ensures EndsWith(a + b + c, c)
  {
    assert (a + b + c)[|a + b + c| - |c|..] == c;
  }

  /** The whole report: the head, then each entry's pieces. */
  function ContextReport(elementId: int, info: Record, entries: seq<ContextEntry>): string
    requires "selector" in info
  {
    if entries == [] then ContextHeader(elementId, info)
    else ContextReport(elementId, info, entries[..|entries| - 1]) + EntryText(entries[|entries| - 1])
  }

  /** The report grows entry by entry and never loses what came before. */
  lemma {:induction false} ReportExtends(elementId: int, info: Record, entries: seq<ContextEntry>, n: nat)
    requires "selector" in info && n <= |entries|
    ensures var whole := ContextReport(elementId, info, entries);
      var part := ContextReport(elementId, info, entries[..n]);
      |part| <= |whole| && whole[..|part|] == part
    decreases |entries|
  {
    if n < |entries| {
      var p := entries[..|entries| - 1];
      ReportExtends(elementId, info, p, n);
      assert p[..n] == entries[..n];
      var part := ContextReport(elementId, info, entries[..n]);
      var before := ContextReport(elementId, info, p);
      var e := EntryText(entries[|entries| - 1]);
      assert ContextReport(elementId, info, entries) == before + e;
      PrefixOfAppend(before, e, |part|);
    } else {
      assert entries[..n] == entries;
    }
  }

  lemma PrefixOfAppend(a: string, b: string, k: nat)
    requires k <= |a|
    ensures (a + b)[..k] == a[..k]
  {
  }

  /** The formatting loop of get_element_context, appending with `+=`. */
  method FormatContext(elementId: int, info: Record, entries: seq<ContextEntry>) returns (result: string)
    requires "selector" in info
    ensures result == ContextReport(elementId, info, entries)
  {
    result := ContextHeader(elementId, info);
    for i := 0 to |entries|
      invariant result == ContextReport(elementId, info, entries[..i])
    {
      ReportStep(elementId, info, entries, i);
      result := AppendEntry(result, entries[i]);
    }
    assert entries[..|entries|] == entries;
  }

  /** The report over one more entry. */
  lemma ReportStep(elementId: int, info: Record, entries: seq<ContextEntry>, i: nat)
    requires "selector" in info && i < |entries|
    ensures ContextReport(elementId, info, entries[..i + 1])
      == ContextReport(elementId, info, entries[..i]) + EntryText(entries[i])
  {
    assert entries[..i + 1][..i] == entries[..i];
  }

  /** The body of that loop for one entry. */
  method AppendEntry(prefix: string, ctx: ContextEntry) returns (result: string)
    ensures result == prefix + EntryText(ctx)
  {
    var line := "\nLevel " + IntToDecimal(ctx.level) + ": <" + ctx.tagName + ">";
    assert line == HeadPart(ctx);
    if Present(ctx.id) {
      line := line + (" id='" + ctx.id.value + "'");
    }
    assert line == HeadPart(ctx) + IdPart(ctx);
    if Present(ctx.className) {
      var classStr := ctx.className.value;
      ClassPiece(classStr);
      line := line + if |classStr| > ClassLimit then " class='" + classStr[..ClassLimit] + "...'" else " class='" + classStr + "'";
    }
    assert line == HeadPart(ctx) + IdPart(ctx) + ClassPart(ctx);
    if Present(ctx.text) {
      line := line + ("\n  Text: " + ShownText(ctx.text.value));
    }
    assert line == HeadPart(ctx) + IdPart(ctx) + ClassPart(ctx) + TextPart(ctx);
    if ctx.hasText {
      line := line + StopNote;
    }
    assert line == EntryText(ctx);
    result := prefix + line;
  }

  /** The class piece as the loop writes it. */
  lemma ClassPiece(c: string)
    ensures (if |c| > ClassLimit then " class='" + c[..ClassLimit] + "...'" else " class='" + c + "'")
      == " class='" + ShownClass(c) + "'"
  {
    if |c| > ClassLimit {
      assert " class='" + c[..ClassLimit] + "...'" == " class='" + (c[..ClassLimit] + "...") + "'";
    }
  }
}
