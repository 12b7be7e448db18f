/**
 * The per-item rendering rules of the context menu: the class string of a
 * list entry, its HTML, and what a click on it does.  These are pure
 * functions of an item record and the payload the menu was opened for.
 */
module MenuItems {
  import opened Wrappers

  /**
   * A JavaScript value, as far as the menu inspects it.  Numbers are
   * modelled as integers; NaN and fractions play no part in any rule here.
   */
  datatype JsValue = Undefined | Null | Bool(b: bool) | Num(n: int) | Str(s: string) | Obj(ref: nat)

  /** JavaScript truthiness (NaN left out). */
  predicate Truthy(v: JsValue) {
    match v
    case Undefined => false
    case Null => false
    case Bool(b) => b
    case Num(n) => n != 0
    case Str(s) => s != ""
    case Obj(_) => true
  }

  /** An item's title: a string, a function of the payload, or not set. */
  datatype Title = Text(s: string) | Computed(f: JsValue -> string) | Missing

  /** The identity of an item's action callback. */
  type ActionId = nat

  /**
   * A menu item.  `divider` and `disabled` are the truthiness of the
   * corresponding fields; `action` is None when the field is unset.
   */
  datatype Item = Item(divider: bool, disabled: bool, action: Option<ActionId>, title: Title)

  const DividerClass: string := " is-divider"
  const DisabledClass: string := " is-disabled"
  const HeaderClass: string := " is-header"

  /** The flags an item's class string encodes. */
  datatype ClassFlags = ClassFlags(divider: bool, disabled: bool, header: bool)

  /** The flags of an item: a header is an item without an action. */
  function Flags(it: Item): ClassFlags {
    ClassFlags(it.divider, it.disabled, it.action.None?)
  }

  /** The class attribute of an item's list entry. */
  function ItemClass(it: Item): (r: string)
    ensures r == "" <==> !it.divider && !it.disabled && it.action.Some?
    ensures |r| == (if it.divider then 11 else 0) + (if it.disabled then 12 else 0) + (if it.action.None? then 10 else 0)
  {
    (if it.divider then DividerClass else "")
    + (if it.disabled then DisabledClass else "")
    + (if it.action.None? then HeaderClass else "")
  }

  predicate StartsWith(s: string, p: string) {
    |p| <= |s| && s[..|p|] == p
  }

  /** Reads the flags back from a class string; None if it is not one ItemClass produces. */
  function ParseClass(s: string): (r: Option<ClassFlags>) {
    var d := StartsWith(s, DividerClass);
    var s1 := if d then s[|DividerClass|..] else s;
    var ds := StartsWith(s1, DisabledClass);
    var s2 := if ds then s1[|DisabledClass|..] else s1;
    var h := StartsWith(s2, HeaderClass);
    var s3 := if h then s2[|HeaderClass|..] else s2;
    if s3 == "" then Some(ClassFlags(d, ds, h)) else None
  }

  lemma StripPrefix(p: string, rest: string)
    ensures StartsWith(p + rest, p) && (p + rest)[|p|..] == rest
  {
    assert (p + rest)[..|p|] == p;
  }

  lemma DisabledNotDivider(rest: string)
    ensures !StartsWith(DisabledClass + rest, DividerClass)
  {
    assert (DisabledClass + rest)[6] == 's';
  }

  lemma HeaderNotDivider(rest: string)
    ensures !StartsWith(HeaderClass + rest, DividerClass)
    ensures !StartsWith(HeaderClass + rest, DisabledClass)
  {
    assert (HeaderClass + rest)[4] == 'h';
  }

  /** The class string determines the item's divider, disabled and header flags. */
  lemma {:induction false} ParseItemClass(it: Item)
    ensures ParseClass(ItemClass(it)) == Some(Flags(it))
  {
    var h := if it.action.None? then HeaderClass else "";
    var tail := (if it.disabled then DisabledClass else "") + h;
    var s := ItemClass(it);
    assert s == (if it.divider then DividerClass else "") + tail;
    assert HeaderClass + "" == HeaderClass;
    assert StartsWith(s, DividerClass) == it.divider && (if it.divider then s[|DividerClass|..] else s) == tail by {
      if it.divider {
        StripPrefix(DividerClass, tail);
      } else if it.disabled {
        DisabledNotDivider(h);
      } else if it.action.None? {
        HeaderNotDivider("");
      }
    }
    assert StartsWith(tail, DisabledClass) == it.disabled && (if it.disabled then tail[|DisabledClass|..] else tail) == h by {
      if it.disabled {
        StripPrefix(DisabledClass, h);
      } else if it.action.None? {
        HeaderNotDivider("");
      }
    }
    assert StartsWith(h, HeaderClass) == it.action.None? && (if it.action.None? then h[|HeaderClass|..] else h) == "" by {
      if it.action.None? {
        StripPrefix(HeaderClass, "");
      }
    }
  }

  /** Two items with the same class string agree on all three flags. */
  lemma ItemClassInjective(a: Item, b: Item)
    requires ItemClass(a) == ItemClass(b)
    ensures Flags(a) == Flags(b)
  {
    ParseItemClass(a);
    ParseItemClass(b);
  }

  /**
   * The HTML of an item's list entry.  None stands for the call
   * `d.title(data)` on a title that is not a function, which throws.
   */
  function ItemHtml(it: Item, data: JsValue): (r: Option<string>)
    ensures it.divider ==> r == Some("<hr>")
    ensures r.None? <==> !it.divider && it.title.Missing?
  {
    if it.divider then Some("<hr>")
    else match it.title
      case Text(s) => Some(s)
      case Computed(f) => Some(f(data))
      case Missing => None
  }

  /** A divider renders as a rule whatever its title, and never throws. */
  lemma DividerIgnoresTitle(it: Item, t: Title, data: JsValue)
    requires it.divider
    ensures ItemHtml(it.(title := t), data) == Some("<hr>")
  {
  }

  /** A non-divider renders its string title itself, or its title function applied to the payload. */
  lemma HtmlOfTitle(it: Item, data: JsValue)
    ensures !it.divider && it.title.Text? ==> ItemHtml(it, data) == Some(it.title.s)
    ensures !it.divider && it.title.Computed? ==> ItemHtml(it, data) == Some(it.title.f(data))
  {
  }

  /** What the click handler of an entry decides. */
  datatype ClickOutcome = IgnoredDisabled | IgnoredHeader | Fire(action: ActionId)

  /** A click fires exactly for an enabled item that has an action, and fires that item's action. */
  function Click(it: Item): (r: ClickOutcome)
    ensures r.Fire? <==> !it.disabled && it.action.Some?
    ensures r.Fire? ==> Some(r.action) == it.action
  {
    if it.disabled then IgnoredDisabled
    else if it.action.None? then IgnoredHeader
    else Fire(it.action.value)
  }

  /**
   * Disabled is tested before the action, and the divider flag not at all:
   * a disabled item is ignored as disabled, an enabled item without an
   * action as a header, and a divider with an action fires it.
   */
  lemma ClickDecisionOrder(it: Item)
    ensures it.disabled ==> Click(it) == IgnoredDisabled
    ensures !it.disabled && it.action.None? ==> Click(it) == IgnoredHeader
    ensures it.divider && !it.disabled && it.action.Some? ==> Click(it) == Fire(it.action.value)
  {
  }

  /**
   * The index of the first item whose HTML cannot be produced, or |items|
   * when every entry renders.  d3 evaluates the html callback entry by
   * entry, so the exception of that item ends the rendering there.
   */
  function HtmlStop(items: seq<Item>, data: JsValue): (k: nat)
    ensures k <= |items|
    ensures forall j :: 0 <= j < k ==> ItemHtml(items[j], data).Some?
    ensures k < |items| ==> ItemHtml(items[k], data).None?
    decreases |items|
  {
    if items == [] then 0
    else if ItemHtml(items[0], data).None? then 0
    else 1 + HtmlStop(items[1..], data)
  }

  /**
   * One list entry: its class, its HTML (None when never set) and its click
   * handler (None when the rendering stopped before handlers were attached).
   */
  datatype Row = Row(cls: string, html: Option<string>, onClick: Option<ClickOutcome>)

  /**
   * The entries the data join appends, one per item, in order: every class
   * is set, the HTML up to the item that throws, and click handlers only when
   * the HTML pass completed.
   */
  function BuildRows(items: seq<Item>, data: JsValue): (rows: seq<Row>)
    ensures |rows| == |items|
    ensures forall k :: 0 <= k < |rows| ==> rows[k].cls == ItemClass(items[k])
    ensures forall k :: 0 <= k < |rows| ==> (rows[k].html.Some? <==> k < HtmlStop(items, data))
    ensures forall k :: 0 <= k < |rows| && rows[k].html.Some? ==> rows[k].html == ItemHtml(items[k], data)
    ensures forall k :: 0 <= k < |rows| ==> (rows[k].onClick.Some? <==> HtmlStop(items, data) == |items|)
    ensures forall k :: 0 <= k < |rows| && rows[k].onClick.Some? ==> rows[k].onClick == Some(Click(items[k]))
  {
    var stop := HtmlStop(items, data);
    seq(|items|, k requires 0 <= k < |items| =>
      Row(ItemClass(items[k]),
          if k < stop then ItemHtml(items[k], data) else None,
          if stop == |items| then Some(Click(items[k])) else None))
  }

  /** Every entry's class string reads back as its own item's flags, in order. */
  lemma RowsShowItemFlags(items: seq<Item>, data: JsValue)
    ensures forall k :: 0 <= k < |items| ==> ParseClass(BuildRows(items, data)[k].cls) == Some(Flags(items[k]))
  {
    forall k | 0 <= k < |items|
      ensures ParseClass(BuildRows(items, data)[k].cls) == Some(Flags(items[k]))
    {
      ParseItemClass(items[k]);
    }
  }

  /** When every item has a title or is a divider, every entry is complete. */
  lemma AllTitledRenders(items: seq<Item>, data: JsValue)
    requires forall j :: 0 <= j < |items| ==> items[j].divider || !items[j].title.Missing?
    ensures HtmlStop(items, data) == |items|
  {
  }
}
