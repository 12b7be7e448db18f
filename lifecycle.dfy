/**
 * The menu lifecycle as functions over the state of the page: how many
 * `.d3-context-menu` containers exist and what each holds, which close
 * function is registered as the body's `click.d3-context-menu` listener,
 * and the log of user callbacks invoked so far.
 */
module Lifecycle {
  import opened Wrappers
  import opened MenuItems

  /** The identity of the DOM element the handler was invoked on. */
  type Element = nat

  /** An open callback: its identity, and what it returns for (data, index). */
  datatype OpenHook = OpenHook(id: nat, answer: (JsValue, JsValue) -> JsValue)

  /** The identity of a close callback (it is called without arguments). */
  type CloseHook = nat

  /** The `menu` argument: an item array, or a function from the payload to one. */
  datatype Menu = Fixed(items: seq<Item>) | FromData(f: JsValue -> seq<Item>)

  /**
   * The `opts` argument: a falsy value (absent, null, ...), a function, or
   * an object whose `onOpen`/`onClose` fields may be unset.
   */
  datatype Options = Falsy | OpenFunction(hook: OpenHook) | Record(onOpen: Option<OpenHook>, onClose: Option<CloseHook>)

  /** What one call of the factory captures; its handler and close function act on the shared page. */
  datatype Instance = Instance(menu: Menu, onOpen: Option<OpenHook>, onClose: Option<CloseHook>)

  /** The option normalisation of the factory. */
  function Configure(menu: Menu, opts: Options): (inst: Instance)
    ensures inst.menu == menu
    ensures opts.OpenFunction? ==> inst.onOpen == Some(opts.hook) && inst.onClose.None?
    ensures opts.Record? ==> inst.onOpen == opts.onOpen && inst.onClose == opts.onClose
    ensures opts.Falsy? ==> inst.onOpen.None? && inst.onClose.None?
    ensures inst.onClose.Some? <==> opts.Record? && opts.onClose.Some?
  {
    match opts
    case OpenFunction(hook) => Instance(menu, Some(hook), None)
    case _ =>
      var o := if opts.Falsy? then Record(None, None) else opts;
      Instance(menu, o.onOpen, o.onClose)
  }

  /** A falsy `opts` behaves as an empty options object. */
  lemma FalsyOptionsAreEmptyRecord(menu: Menu)
    ensures Configure(menu, Falsy) == Configure(menu, Record(None, None))
  {
  }

  /** The items rendered for a payload: `menu(data)` for a function, else `menu` itself. */
  function Items(menu: Menu, data: JsValue): (items: seq<Item>)
    ensures menu.Fixed? ==> items == menu.items
    ensures menu.FromData? ==> items == menu.f(data)
  {
    match menu
    case Fixed(items) => items
    case FromData(f) => f(data)
  }

  /** What the handler received: the element, `data`, `index` and the event's page coordinates. */
  datatype Trigger = Trigger(elm: Element, data: JsValue, index: JsValue, pageX: int, pageY: int)

  /** A user callback invocation. */
  datatype Event =
    | OpenHookRan(hook: nat, data: JsValue, index: JsValue)
    | CloseHookRan(hook: CloseHook)
    | ActionRan(action: ActionId, elm: Element, data: JsValue, index: JsValue)

  /**
   * The `ul` a handler appended: the instance whose close function its
   * contextmenu and click listeners call, what the handler received, and
   * the entries.
   */
  datatype MenuList = MenuList(owner: Instance, trigger: Trigger, rows: seq<Row>)

  /** A `.d3-context-menu` container: its list, its left/top styles and whether it is displayed. */
  datatype Panel = Panel(list: Option<MenuList>, left: Option<int>, top: Option<int>, displayed: bool)

  /** A container as createMenu appends it: empty, no styles. */
  const FreshPanel: Panel := Panel(None, None, None, false)

  /** The page: containers in document order, the body click listener, the callback log. */
  datatype Page = Page(panels: seq<Panel>, bodyListener: Option<Instance>, log: seq<Event>)

  const InitialPage: Page := Page([], None, [])

  /**
   * The invariant the lifecycle keeps: at most one container, and while one
   * exists it holds a list and the body listener is its owner's close
   * function, so an outside click dismisses it.
   */
  ghost predicate Valid(p: Page) {
    && |p.panels| <= 1
    && (|p.panels| == 1 ==> p.panels[0].list.Some? && p.bodyListener == Some(p.panels[0].list.value.owner))
  }

  /** The close callback invocations the close function of `inst` logs when it removes a container. */
  function CloseEvents(inst: Instance): seq<Event> {
    if inst.onClose.Some? then [CloseHookRan(inst.onClose.value)] else []
  }

  /** closeMenu of `inst`. */
  function Close(p: Page, inst: Instance): (q: Page)
    ensures q.bodyListener.None?
    ensures |q.panels| == if |p.panels| > 0 then |p.panels| - 1 else 0
    ensures forall k :: 0 <= k < |q.panels| ==> q.panels[k] == p.panels[k + 1]
    ensures |p.panels| > 0 ==> q.log == p.log + CloseEvents(inst)
    ensures q.log != p.log <==> |p.panels| > 0 && inst.onClose.Some?
  {
    var unlistened := p.(bodyListener := None);
    if |p.panels| > 0 then
      var removed := unlistened.(panels := p.panels[1..]);
      removed.(log := removed.log + CloseEvents(inst))
    else unlistened
  }

  /** createMenu: append a fresh container only when there is none. */
  function Create(p: Page): (q: Page)
    ensures q.bodyListener == p.bodyListener && q.log == p.log
    ensures |p.panels| == 0 ==> q.panels == [FreshPanel]
    ensures |p.panels| > 0 ==> q.panels == p.panels
  {
    if |p.panels| == 0 then p.(panels := [FreshPanel]) else p
  }

  /** Registering `inst`'s close function on body clicks replaces any earlier listener of that name. */
  function Listen(p: Page, inst: Instance): (q: Page)
    ensures q.bodyListener == Some(inst)
    ensures q.panels == p.panels && q.log == p.log
  {
    p.(bodyListener := Some(inst))
  }

  /** The contextmenu listener and the new list go on every container. */
  function Attach(p: Page, l: MenuList): (q: Page)
    ensures q.bodyListener == p.bodyListener && q.log == p.log
    ensures |q.panels| == |p.panels|
    ensures forall k :: 0 <= k < |q.panels| ==> q.panels[k] == p.panels[k].(list := Some(l))
  {
    p.(panels := seq(|p.panels|, k requires 0 <= k < |p.panels| => p.panels[k].(list := Some(l))))
  }

  /** The display step: the first container gets left, top and `display: block`. */
  function Show(p: Page, left: int, top: int): (q: Page)
    ensures q.bodyListener == p.bodyListener && q.log == p.log
    ensures |q.panels| == |p.panels|
    ensures |p.panels| > 0 ==> q.panels[0] == p.panels[0].(left := Some(left), top := Some(top), displayed := true)
    ensures forall k :: 0 < k < |p.panels| ==> q.panels[k] == p.panels[k]
  {
    if |p.panels| == 0 then p
    else p.(panels := [p.panels[0].(left := Some(left), top := Some(top), displayed := true)] + p.panels[1..])
  }

  /** An open callback cancels the display only by returning exactly `false`. */
  predicate Cancels(v: JsValue) {
    v == Bool(false)
  }

  /** How a handler run ended. */
  datatype Outcome = Displayed | Cancelled | RenderFailed(at: nat)

  datatype Opened = Opened(page: Page, outcome: Outcome)

  /** The page after the handler has closed, created, listened and appended the list. */
  function Built(p: Page, inst: Instance, t: Trigger): Page {
    var rows := BuildRows(Items(inst.menu, t.data), t.data);
    Attach(Listen(Create(Close(p, inst)), inst), MenuList(inst, t, rows))
  }

  /** The contextmenu handler of `inst`. */
  function Open(p: Page, inst: Instance, t: Trigger): (r: Opened)
    ensures r.page.bodyListener == Some(inst)
    ensures |r.page.panels| >= 1
    ensures r.outcome.RenderFailed? <==> HtmlStop(Items(inst.menu, t.data), t.data) < |Items(inst.menu, t.data)|
    ensures r.outcome == Displayed <==>
      HtmlStop(Items(inst.menu, t.data), t.data) == |Items(inst.menu, t.data)|
      && (inst.onOpen.None? || !Cancels(inst.onOpen.value.answer(t.data, t.index)))
    ensures r.outcome == Displayed ==> r.page.panels[0].displayed
  {
    var items := Items(inst.menu, t.data);
    var built := Built(p, inst, t);
    var stop := HtmlStop(items, t.data);
    if stop < |items| then Opened(built, RenderFailed(stop))
    else match inst.onOpen
      case None => Opened(Show(built, t.pageX - 2, t.pageY - 2), Displayed)
      case Some(h) =>
        var asked := built.(log := built.log + [OpenHookRan(h.id, t.data, t.index)]);
        if Cancels(h.answer(t.data, t.index)) then Opened(asked, Cancelled)
        else Opened(Show(asked, t.pageX - 2, t.pageY - 2), Displayed)
  }

  /** The close function a click on the body runs: the registered one, if any. */
  function BodyClick(p: Page): (q: Page)
    ensures q.bodyListener.None?
    ensures p.bodyListener.None? ==> q == p
    ensures p.bodyListener.Some? ==> q == Close(p, p.bodyListener.value)
  {
    match p.bodyListener
    case None => p
    case Some(inst) => Close(p, inst)
  }

  /** A contextmenu event on the container runs its list owner's close function. */
  function PanelContextMenu(p: Page): (q: Page)
    ensures |p.panels| > 0 && p.panels[0].list.Some? ==>
      q == Close(p, p.panels[0].list.value.owner) && |q.panels| == |p.panels| - 1 && q.bodyListener.None?
    ensures !(|p.panels| > 0 && p.panels[0].list.Some?) ==> q == p
  {
    if |p.panels| > 0 && p.panels[0].list.Some? then Close(p, p.panels[0].list.value.owner) else p
  }

  /** The click handler of entry `k` of the container's list. */
  function ItemClick(p: Page, k: nat): (q: Page)
    ensures q != p ==>
      && |p.panels| > 0 && p.panels[0].list.Some? && k < |p.panels[0].list.value.rows|
      && p.panels[0].list.value.rows[k].onClick.Some? && p.panels[0].list.value.rows[k].onClick.value.Fire?
      && q.panels == p.panels[1..] && q.bodyListener.None?
    ensures |p.log| <= |q.log| <= |p.log| + 2 && q.log[..|p.log|] == p.log
  {
    if |p.panels| > 0 && p.panels[0].list.Some? && k < |p.panels[0].list.value.rows| then
      var l := p.panels[0].list.value;
      match l.rows[k].onClick
      case Some(Fire(a)) =>
        var acted := p.(log := p.log + [ActionRan(a, l.trigger.elm, l.trigger.data, l.trigger.index)]);
        Close(acted, l.owner)
      case _ => p
    else p
  }

  /** What can happen on the page. */
  datatype UserEvent =
    | ContextMenuOn(inst: Instance, t: Trigger)
    | ClickOnBody
    | ContextMenuOnPanel
    | ClickOnEntry(k: nat)

  function Step(p: Page, e: UserEvent): Page {
    match e
    case ContextMenuOn(inst, t) => Open(p, inst, t).page
    case ClickOnBody => BodyClick(p)
    case ContextMenuOnPanel => PanelContextMenu(p)
    case ClickOnEntry(k) => ItemClick(p, k)
  }

  function Run(p: Page, es: seq<UserEvent>): Page
    decreases |es|
  {
    if es == [] then p else Run(Step(p, es[0]), es[1..])
  }

  /** The number of close callback invocations in a log. */
  function CloseCount(log: seq<Event>): nat
    decreases |log|
  {
    if log == [] then 0
    else (if log[|log| - 1].CloseHookRan? then 1 else 0) + CloseCount(log[..|log| - 1])
  }

  lemma {:induction false} CloseCountAppend(a: seq<Event>, b: seq<Event>)
    ensures CloseCount(a + b) == CloseCount(a) + CloseCount(b)
    decreases |b|
  {
    if b == [] {
      assert a + b == a;
    } else {
      var b' := b[..|b| - 1];
      assert (a + b)[..|a + b| - 1] == a + b';
      CloseCountAppend(a, b');
    }
  }

  // ----- closeMenu -----

  /**
   * closeMenu always leaves the body listener unregistered; it removes the
   * container and runs the close callback exactly when a container existed.
   */
  lemma CloseBehaviour(p: Page, inst: Instance)
    requires Valid(p)
    ensures Close(p, inst).bodyListener.None? && Close(p, inst).panels == []
    ensures CloseCount(Close(p, inst).log) == CloseCount(p.log) + (if |p.panels| > 0 && inst.onClose.Some? then 1 else 0)
    ensures Valid(Close(p, inst))
  {
    CloseCountAppend(p.log, CloseEvents(inst));
    if inst.onClose.Some? {
      assert CloseCount(CloseEvents(inst)) == 1 by {
        assert CloseEvents(inst)[..0] == [];
      }
    }
  }

  /** A second closeMenu, of any instance, finds no container and changes nothing else. */
  lemma CloseIdempotent(p: Page, inst: Instance, other: Instance)
    requires Valid(p)
    ensures Close(Close(p, inst), other) == Close(p, inst)
  {
  }

  /** Closing twice in a row runs a close callback at most once. */
  lemma CloseTwiceFiresAtMostOnce(p: Page, inst: Instance, other: Instance)
    requires Valid(p)
    ensures CloseCount(Close(Close(p, inst), other).log) <= CloseCount(p.log) + 1
  {
    CloseBehaviour(p, inst);
    CloseIdempotent(p, inst, other);
  }

  /** After a close, a click on the body has nothing left to dismiss. */
  lemma BodyClickAfterCloseIsInert(p: Page, inst: Instance)
    ensures Step(Close(p, inst), ClickOnBody) == Close(p, inst)
  {
  }

  // ----- the handler -----

  /**
   * After the handler runs there is exactly one container, it holds the new
   * list, and the body listener is the instance's close function, whatever
   * the outcome.
   */
  lemma OpenLeavesOneContainer(p: Page, inst: Instance, t: Trigger)
    requires Valid(p)
    ensures var q := Open(p, inst, t).page;
      && |q.panels| == 1
      && q.panels[0].list == Some(MenuList(inst, t, BuildRows(Items(inst.menu, t.data), t.data)))
      && q.bodyListener == Some(inst)
      && Valid(q)
  {
  }

  /**
   * The callbacks a handler run invokes, in order: the close callback of
   * this instance if a container was open, then the open callback if the
   * entries rendered and one is set.  The previous owner's close callback
   * is not the one that runs.
   */
  lemma OpenLog(p: Page, inst: Instance, t: Trigger)
    requires Valid(p)
    ensures var items := Items(inst.menu, t.data);
      var closing := if |p.panels| > 0 then CloseEvents(inst) else [];
      var opening := if HtmlStop(items, t.data) == |items| && inst.onOpen.Some?
        then [OpenHookRan(inst.onOpen.value.id, t.data, t.index)] else [];
      Open(p, inst, t).page.log == p.log + closing + opening
  {
  }

  /**
   * The open callback cancels exactly when the entries rendered and it
   * returned `false`; a cancelled menu stays in the page, undisplayed and
   * unpositioned, with the body listener still registered.
   */
  lemma CancelledOpen(p: Page, inst: Instance, t: Trigger)
    requires Valid(p)
    ensures var items := Items(inst.menu, t.data);
      Open(p, inst, t).outcome == Cancelled <==>
        HtmlStop(items, t.data) == |items| && inst.onOpen.Some? && inst.onOpen.value.answer(t.data, t.index) == Bool(false)
    ensures var q := Open(p, inst, t);
      q.outcome == Cancelled ==>
        |q.page.panels| == 1 && !q.page.panels[0].displayed
        && q.page.panels[0].left.None? && q.page.panels[0].top.None?
        && q.page.bodyListener == Some(inst)
  {
  }

  /** Falsy return values other than `false` do not cancel. */
  lemma OtherFalsyDoesNotCancel(p: Page, inst: Instance, t: Trigger)
    requires Valid(p)
    requires HtmlStop(Items(inst.menu, t.data), t.data) == |Items(inst.menu, t.data)|
    requires inst.onOpen.Some?
    requires !Truthy(inst.onOpen.value.answer(t.data, t.index))
    requires inst.onOpen.value.answer(t.data, t.index) != Bool(false)
    ensures Open(p, inst, t).outcome == Displayed
  {
  }

  /** When not cancelled the container is placed 2 pixels up and left of the pointer and displayed. */
  lemma NormalDisplay(p: Page, inst: Instance, t: Trigger)
    requires Valid(p)
    ensures var q := Open(p, inst, t);
      q.outcome == Displayed ==>
        q.page.panels[0].left == Some(t.pageX - 2) && q.page.panels[0].top == Some(t.pageY - 2)
        && q.page.panels[0].displayed
    ensures var items := Items(inst.menu, t.data);
      HtmlStop(items, t.data) == |items| && (inst.onOpen.None? || !Cancels(inst.onOpen.value.answer(t.data, t.index)))
      ==> Open(p, inst, t).outcome == Displayed
  {
  }

  /**
   * An item without a title, not a divider, stops the handler: nothing is
   * displayed, the open callback does not run and no click handler is
   * attached, but the container and the body listener are in place.
   */
  lemma MissingTitleStopsOpen(p: Page, inst: Instance, t: Trigger)
    requires Valid(p)
    requires HtmlStop(Items(inst.menu, t.data), t.data) < |Items(inst.menu, t.data)|
    ensures var q := Open(p, inst, t);
      && q.outcome == RenderFailed(HtmlStop(Items(inst.menu, t.data), t.data))
      && |q.page.panels| == 1 && !q.page.panels[0].displayed
      && q.page.bodyListener == Some(inst)
      && forall r :: r in q.page.panels[0].list.value.rows ==> r.onClick.None?
  {
  }

  /**
   * Opening instance `b` while another menu is shown runs `b`'s own close
   * callback, the one of the close function that does the removing, and not
   * the callback of the instance that owned the menu.
   */
  lemma ReopenRunsClosingInstanceCallback(p: Page, b: Instance, u: Trigger)
    requires Valid(p) && |p.panels| == 1
    requires HtmlStop(Items(b.menu, u.data), u.data) == |Items(b.menu, u.data)|
    requires b.onOpen.None?
    ensures Open(p, b, u).page.log == p.log + CloseEvents(b)
  {
    OpenLog(p, b, u);
  }

  // ----- clicks -----

  /** With a container present, a click on the body closes it with its owner's close function. */
  lemma OutsideClickDismisses(p: Page)
    requires Valid(p) && |p.panels| == 1
    ensures BodyClick(p) == Close(p, p.panels[0].list.value.owner)
    ensures BodyClick(p).panels == []
  {
  }

  /** A disabled entry or a header ignores the click: no action runs and the menu stays. */
  lemma IgnoredClickChangesNothing(p: Page, k: nat)
    requires |p.panels| > 0 && p.panels[0].list.Some? && k < |p.panels[0].list.value.rows|
    requires !(p.panels[0].list.value.rows[k].onClick.Some? && p.panels[0].list.value.rows[k].onClick.value.Fire?)
    ensures ItemClick(p, k) == p
  {
  }

  /** An enabled entry with an action runs it once, with the handler's element, data and index, then closes. */
  lemma FiringClickRunsActionThenCloses(p: Page, k: nat)
    requires Valid(p) && |p.panels| > 0 && k < |p.panels[0].list.value.rows|
    requires p.panels[0].list.value.rows[k].onClick.Some? && p.panels[0].list.value.rows[k].onClick.value.Fire?
    ensures var l := p.panels[0].list.value;
      var q := ItemClick(p, k);
      && q.log == p.log + [ActionRan(l.rows[k].onClick.value.action, l.trigger.elm, l.trigger.data, l.trigger.index)] + CloseEvents(l.owner)
      && q.panels == [] && q.bodyListener.None?
  {
  }

  /**
   * The entry rows of a rendered menu click as their items decide: entry k
   * of a displayed menu fires exactly when item k is enabled and has an action.
   */
  lemma EntryClickFollowsItem(p: Page, inst: Instance, t: Trigger, k: nat)
    requires Valid(p)
    requires Open(p, inst, t).outcome == Displayed
    requires k < |Items(inst.menu, t.data)|
    ensures var q := Open(p, inst, t).page;
      var it := Items(inst.menu, t.data)[k];
      k < |q.panels[0].list.value.rows|
      && (ItemClick(q, k).log != q.log <==> !it.disabled && it.action.Some?)
  {
    var q := Open(p, inst, t).page;
    var it := Items(inst.menu, t.data)[k];
    OpenLeavesOneContainer(p, inst, t);
    var l := q.panels[0].list.value;
    assert l.rows[k].onClick == Some(Click(it));
    if !it.disabled && it.action.Some? {
      assert |ItemClick(q, k).log| > |q.log|;
    }
  }

  // ----- any sequence of events -----

  lemma StepKeepsValid(p: Page, e: UserEvent)
    requires Valid(p)
    ensures Valid(Step(p, e))
  {
    match e
    case ContextMenuOn(inst, t) => OpenLeavesOneContainer(p, inst, t);
    case ClickOnBody =>
    case ContextMenuOnPanel =>
    case ClickOnEntry(k) =>
  }

  /** Whatever happens on the page, there is never more than one container. */
  lemma {:induction false} RunKeepsValid(p: Page, es: seq<UserEvent>)
    requires Valid(p)
    ensures Valid(Run(p, es))
    ensures |Run(p, es).panels| <= 1
    decreases |es|
  {
    if es != [] {
      StepKeepsValid(p, es[0]);
      RunKeepsValid(Step(p, es[0]), es[1..]);
    }
  }

  /** From the empty page, every reachable page has at most one container, dismissable by a body click. */
  lemma AtMostOneMenu(es: seq<UserEvent>)
    ensures |Run(InitialPage, es).panels| <= 1
    ensures |Run(InitialPage, es).panels| == 1 ==> BodyClick(Run(InitialPage, es)).panels == []
  {
    RunKeepsValid(InitialPage, es);
  }
}
