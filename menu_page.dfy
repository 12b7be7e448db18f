/**
 * The shared page the context menus act on, as an object whose fields the
 * close function, createMenu and the handler update step by step.  Every
 * method is proved to leave the page in the state the corresponding
 * function of module Lifecycle describes, so the lemmas there apply.
 */
module MenuPage {
  import opened Wrappers
  import opened MenuItems
  import opened Lifecycle

  class ContextMenuPage {
    /** The `.d3-context-menu` containers, in document order. */
    var panels: seq<Panel>
    /** The close function registered as the body's `click.d3-context-menu` listener. */
    var bodyListener: Option<Instance>
    /** The user callbacks invoked so far. */
    var log: seq<Event>

    function State(): Page
      reads this
    {
      Page(panels, bodyListener, log)
    }

    ghost predicate Valid()
      reads this
    {
      Lifecycle.Valid(State())
    }

    /** A page without menus. */
    constructor ()
      ensures Valid()
      ensures State() == InitialPage
    {
      panels, bodyListener, log := [], None, [];
    }

    /** closeMenu of instance `inst`. */
    method CloseMenu(inst: Instance)
      modifies this
      ensures State() == Close(old(State()), inst)
      ensures bodyListener.None?
      ensures old(Valid()) ==> Valid() && panels == []
    {
      var hadContainer := |panels| > 0;
      bodyListener := None;
      if hadContainer {
        panels := panels[1..];
        if inst.onClose.Some? {
          log := log + [CloseHookRan(inst.onClose.value)];
        }
      }
    }

    /** createMenu: the data join on `[1]` appends a container only when there is none. */
    method CreateMenu()
      modifies this
      ensures State() == Create(old(State()))
      ensures |panels| >= 1
    {
      if |panels| == 0 {
        panels := panels + [FreshPanel];
      }
    }

    /** The contextmenu handler of instance `inst`. */
    method HandleContextMenu(inst: Instance, t: Trigger) returns (outcome: Outcome)
      requires Valid()
      modifies this
      ensures Valid()
      ensures Opened(State(), outcome) == Open(old(State()), inst, t)
      ensures |panels| == 1 && bodyListener == Some(inst)
      ensures outcome == Displayed ==> panels[0].displayed && panels[0].left == Some(t.pageX - 2) && panels[0].top == Some(t.pageY - 2)
      ensures outcome != Displayed ==> !panels[0].displayed
    {
      ghost var before := State();
      CloseMenu(inst);
      CreateMenu();
      bodyListener := Some(inst);

      var items := Items(inst.menu, t.data);
      var ps := panels;
      var list := MenuList(inst, t, BuildRows(items, t.data));
      panels := seq(|ps|, k requires 0 <= k < |ps| => ps[k].(list := Some(list)));
      assert State() == Built(before, inst, t);

      var stop := HtmlStop(items, t.data);
      if stop < |items| {
        outcome := RenderFailed(stop);
        return;
      }
      if inst.onOpen.Some? {
        var hook := inst.onOpen.value;
        log := log + [OpenHookRan(hook.id, t.data, t.index)];
        if Cancels(hook.answer(t.data, t.index)) {
          outcome := Cancelled;
          return;
        }
      }
      panels := [panels[0].(left := Some(t.pageX - 2), top := Some(t.pageY - 2), displayed := true)] + panels[1..];
      outcome := Displayed;
    }

    /** A click on the body runs the registered close function, if any. */
    method ClickBody()
      modifies this
      ensures State() == BodyClick(old(State()))
      ensures bodyListener.None?
      ensures old(Valid()) ==> Valid() && panels == []
    {
      if bodyListener.Some? {
        CloseMenu(bodyListener.value);
      }
    }

    /** A contextmenu event on the container closes the menu. */
    method ContextMenuOnPanel()
      modifies this
      ensures State() == PanelContextMenu(old(State()))
      ensures old(Valid()) ==> Valid() && panels == []
    {
      if |panels| > 0 && panels[0].list.Some? {
        CloseMenu(panels[0].list.value.owner);
      }
    }

    /** The click handler of entry `k`: ignore disabled entries and headers, else run the action and close. */
    method ClickEntry(k: nat)
      modifies this
      ensures State() == ItemClick(old(State()), k)
      ensures old(Valid()) ==> Valid()
    {
      if |panels| > 0 && panels[0].list.Some? && k < |panels[0].list.value.rows| {
        var l := panels[0].list.value;
        var decision := l.rows[k].onClick;
        if decision.Some? && decision.value.Fire? {
          log := log + [ActionRan(decision.value.action, l.trigger.elm, l.trigger.data, l.trigger.index)];
          CloseMenu(l.owner);
        }
      }
    }
  }
}
