# d3-context-menu: the menu lifecycle and the item rules, in Dafny

This project models the core of `d3.contextMenu(menu, opts)` from
patorjk/d3-context-menu, a d3 plugin that shows a popup menu when an element
gets a `contextmenu` event. Each call of the factory normalises its options
into an optional open callback and an optional close callback. It then
returns a handler. All the handlers and their close functions act on one
shared page, which holds:

- the `.d3-context-menu` containers, each with the entry list
  (`ul`/`li`) a handler appended, its `left`/`top` styles and whether it is
  displayed;
- the close function registered as the body's `click.d3-context-menu`
  listener;
- the log of user callbacks that have run (open callback, close callback,
  item actions).

Modules:

- `Wrappers` (wrappers.dfy): `Option`.
- `MenuItems` (menu_items.dfy): the pure per-item rules. These are the
  class string (`ItemClass`, read back by `ParseClass`), the HTML
  (`ItemHtml`), the click decision (`Click`) and the entries the data join
  builds (`BuildRows`).
- `Lifecycle` (lifecycle.dfy): the page as a value (`Page`), with option
  normalisation (`Configure`), `closeMenu` (`Close`), `createMenu`
  (`Create`), the handler (`Open`) and the three listeners (`BodyClick`,
  `PanelContextMenu`, `ItemClick`). `Run` applies any sequence of page
  events. The lemmas state the lifecycle's properties over these functions.
- `MenuPage` (menu_page.dfy): the class `ContextMenuPage`. Its fields are the
  shared page, and its methods do the same updates step by step, in the
  source's order. Each method's `ensures` ties the new state to the
  `Lifecycle` function of the old state, so the lemmas carry over.

Callbacks are modelled by identity. An open callback also carries the value
it returns for `(data, index)`. Running a callback appends an entry to the
log. The DOM element the handler runs on is an identity, and the payload,
the index/event and callback results are `JsValue`s.

Behaviour of this version that the model keeps, and that a reader might not expect:

- On a re-open, the close callback that runs belongs to the instance whose
  handler is opening. It is not the callback of the menu being removed: each
  instance's `closeMenu` closes over its own `closeCallback`
  (`ReopenRunsClosingInstanceCallback`).
- A cancelled open (the open callback returns `false`) leaves the container
  in the page and the body listener registered. It is only left undisplayed
  (`CancelledOpen`).
- A divider still gets ` is-disabled` when disabled. It gets ` is-header`
  when it has no action, because the class rules do not test `divider`.
- This file has no submenus, no viewport-half placement, no `position` or
  `theme` option and no `"close"` argument. None of them is modelled.
- An item without a title does not render empty: `d.title(data)` throws
  when the title is not a string, so rendering stops at that item
  (`MissingTitleStopsOpen`).
- A divider that has an action still fires it when clicked: the click
  handler tests only `disabled` and `action`, never `divider`
  (`ClickDecisionOrder`).
- The container is appended through the enter selection of a top-level
  `selectAll`, whose parent is the document element. It is therefore a
  sibling of `body`, and a click on one of its entries never reaches the
  body's `click.d3-context-menu` listener: `ClickEntry` is the whole effect
  of an entry click.

## Model

| member | source | states |
|---|---|---|
| Lifecycle.Configure | js/d3-context-menu.js:25-34 | a function `opts` becomes the open callback with no close callback; a record supplies both (each possibly unset); falsy `opts` gives neither; a close callback exists only when a record supplies one |
| Lifecycle.FalsyOptionsAreEmptyRecord | js/d3-context-menu.js:31-33 | a falsy `opts` behaves exactly as `{}` |
| Lifecycle.Create | js/d3-context-menu.js:36-42 | createMenu appends one fresh container when there is none and otherwise changes nothing |
| Lifecycle.Close | js/d3-context-menu.js:44-55 | closeMenu always unregisters the body listener; it removes the first container and logs the close callback exactly when a container existed and a callback is set |
| Lifecycle.CloseBehaviour | js/d3-context-menu.js:44-55 | on a valid page, closeMenu leaves no container and no listener, and the number of close-callback runs rises by one exactly when a container existed and the instance has a close callback |
| Lifecycle.CloseIdempotent | js/d3-context-menu.js:48-54 | a second closeMenu, by any instance, changes nothing |
| Lifecycle.CloseTwiceFiresAtMostOnce | js/d3-context-menu.js:48-54 | two closes in a row run a close callback at most once |
| Lifecycle.BodyClickAfterCloseIsInert | js/d3-context-menu.js:46-68 | after a close, a body click neither closes nor runs a callback again (the listener is gone) |
| Lifecycle.Listen | js/d3-context-menu.js:68 | the body listener becomes the instance's close function, replacing any earlier one; containers and log are unchanged |
| Lifecycle.Items | js/d3-context-menu.js:77 | the items are `menu(data)` when `menu` is a function, else `menu` itself |
| Lifecycle.Open | js/d3-context-menu.js:58-124 | the handler always leaves the instance's listener registered and a container present; it fails exactly when an item's HTML throws, displays exactly when the entries rendered and the open callback (if any) did not return `false`, and a displayed outcome has the container displayed (OpenLeavesOneContainer, OpenLog, CancelledOpen, NormalDisplay and MissingTitleStopsOpen state the rest) |
| Lifecycle.BodyClick | js/d3-context-menu.js:68 | a body click runs the registered close function if there is one and otherwise changes nothing; no listener is left (OutsideClickDismisses, BodyClickAfterCloseIsInert) |
| Lifecycle.PanelContextMenu | js/d3-context-menu.js:71-75 | a contextmenu on the container runs its list owner's close function, removing the container and the listener; with no list, nothing changes |
| Lifecycle.ItemClick | js/d3-context-menu.js:101-106 | an entry click changes the page only when the entry's handler fires, and then removes the container and the listener; the log only grows, by at most the action and one close callback (IgnoredClickChangesNothing, FiringClickRunsActionThenCloses) |
| Lifecycle.Attach | js/d3-context-menu.js:70-76 | the contextmenu listener and the new list are set on every container, nothing else changes |
| Lifecycle.Show | js/d3-context-menu.js:117-120 | the first container gets left, top and display block; the other containers, the listener and the log are unchanged |
| Lifecycle.OpenLeavesOneContainer | js/d3-context-menu.js:58-77 | after the handler there is exactly one container, holding the list built from the resolved items, and the body listener is the instance's close function, whatever the outcome |
| Lifecycle.OpenLog | js/d3-context-menu.js:58-114 | the handler's log is the old log, then this instance's close callback if a container was open, then the open callback if the entries rendered and one is set |
| Lifecycle.CancelledOpen | js/d3-context-menu.js:108-114 | the outcome is Cancelled exactly when the entries rendered and the open callback returned exactly `false`; a cancelled menu stays undisplayed and unpositioned, with the container present and the listener registered |
| Lifecycle.OtherFalsyDoesNotCancel | js/d3-context-menu.js:110-114 | an open callback returning a falsy value other than `false` does not cancel: the menu is displayed |
| Lifecycle.NormalDisplay | js/d3-context-menu.js:116-120 | a displayed menu sits at left = pageX - 2, top = pageY - 2 with display block, and every open that renders and is not cancelled is displayed |
| Lifecycle.MissingTitleStopsOpen | js/d3-context-menu.js:92-106 | an untitled non-divider item stops the handler at that item: nothing is displayed, no click handler is attached, the container and listener stay |
| Lifecycle.ReopenRunsClosingInstanceCallback | js/d3-context-menu.js:44-62 | opening instance `b` over any shown menu (entries render, no open callback) extends the log by exactly `b`'s own close callback, not the previous owner's |
| Lifecycle.OutsideClickDismisses | js/d3-context-menu.js:68 | with a container present, a body click closes it with its owner's close function and leaves no container |
| Lifecycle.IgnoredClickChangesNothing | js/d3-context-menu.js:101-103 | a click on a disabled entry, a header or an entry without a handler changes nothing: no action, no close |
| Lifecycle.FiringClickRunsActionThenCloses | js/d3-context-menu.js:101-106 | a firing entry logs its action once with the handler's element, data and index, then the owner's close, and leaves no container or listener |
| Lifecycle.EntryClickFollowsItem | js/d3-context-menu.js:77-106 | in a displayed menu, clicking entry k changes the log exactly when item k of the resolved items is enabled and has an action |
| Lifecycle.StepKeepsValid | js/d3-context-menu.js:58-124 | every page event keeps at most one container, owned by the registered body listener |
| Lifecycle.RunKeepsValid | js/d3-context-menu.js:36-124 | any sequence of page events keeps that invariant |
| Lifecycle.AtMostOneMenu | js/d3-context-menu.js:36-124 | from the empty page, every reachable page has at most one container, and a body click removes it |
| MenuItems.ItemClass | js/d3-context-menu.js:79-91 | an item's class string is empty exactly for an enabled non-divider with an action; its length is the sum of the three marker lengths present |
| MenuItems.ParseItemClass | js/d3-context-menu.js:79-91 | the class string reads back as (divider, disabled, no action), so it is the ordered concatenation of the markers |
| MenuItems.ItemClassInjective | js/d3-context-menu.js:79-91 | items with equal class strings agree on all three flags |
| MenuItems.DividerIgnoresTitle | js/d3-context-menu.js:93-95 | a divider's HTML is `<hr>` whatever its title |
| MenuItems.ItemHtml | js/d3-context-menu.js:92-100 | a divider's HTML is `<hr>`; the HTML cannot be produced (the title call throws) exactly for an untitled non-divider |
| MenuItems.HtmlOfTitle | js/d3-context-menu.js:99 | a non-divider's HTML is its string title itself, else its title function applied to the data |
| MenuItems.Click | js/d3-context-menu.js:101-106 | a click fires exactly for an enabled item with an action, and fires that item's action |
| MenuItems.ClickDecisionOrder | js/d3-context-menu.js:101-104 | a disabled item is ignored as disabled, an enabled item without action as a header, and a divider with an action fires it |
| MenuItems.HtmlStop | js/d3-context-menu.js:92-100 | the HTML pass reaches index k: every earlier item renders and item k (if any) throws |
| MenuItems.AllTitledRenders | js/d3-context-menu.js:92-100 | when every item is a divider or has a title, the HTML pass completes |
| MenuItems.BuildRows | js/d3-context-menu.js:77-106 | one entry per item in order, each with its item's class; the HTML is set up to the failing item; click handlers exist only when the pass completed, each deciding as its item does |
| MenuItems.RowsShowItemFlags | js/d3-context-menu.js:77-91 | entry k's class reads back as item k's flags |
| MenuPage.ContextMenuPage.CloseMenu | js/d3-context-menu.js:44-55 | the page afterwards is `Close` of the page before; no listener is left; a valid page ends with no container |
| MenuPage.ContextMenuPage.CreateMenu | js/d3-context-menu.js:36-42 | the page afterwards is `Create` of the page before; at least one container exists |
| MenuPage.ContextMenuPage.HandleContextMenu | js/d3-context-menu.js:58-124 | the page and outcome are `Open` of the page before; one container, listener registered, positioned and displayed exactly on the Displayed outcome |
| MenuPage.ContextMenuPage.ClickBody | js/d3-context-menu.js:68 | a body click runs the registered close function, leaving no listener and, on a valid page, no container |
| MenuPage.ContextMenuPage.ContextMenuOnPanel | js/d3-context-menu.js:71-75 | a contextmenu on the container runs its owner's close function |
| MenuPage.ContextMenuPage.ClickEntry | js/d3-context-menu.js:101-106 | the page afterwards is `ItemClick` of the page before; validity is kept |

## Left out

- The UMD/AMD/CommonJS wrapper (lines 1-21) is module loading only.
- The d3 selection API is not modelled as a DOM; it appears only through
  its effect on the page fields. Markup beyond the entries' class and HTML
  is left out, and so is CSS. In particular, the stylesheet keeps an
  unstyled container hidden; the model's `displayed` flag stands for
  `display: block`.
- `preventDefault`/`stopPropagation` (lines 73-74, 122-123) are browser
  event suppression. The model does not record that the cancelled and
  failed paths return before them.
- BuildRows, ItemClick: each entry's click decision (`Click(items[k])`) is
  fixed when the list is built. The source reads `d.disabled` and
  `d.action` when the click happens, after the open callback and any
  earlier action have run; a callback that mutates the item objects is not
  modelled.
- `console.error` for a missing title (lines 96-98) is a logging side
  effect. The model records only that the HTML cannot be produced for an
  untitled non-divider.
- What user callbacks do is left out: actions, hooks, `menu(data)` and
  title functions. Their side effects and exceptions are not modelled. An
  action that throws would skip the close that follows it.
- A truthy `onOpen` that is not a function, and a title that is neither a
  string, a function nor unset, are not modelled. Item `divider`/`disabled`
  fields are their truthiness.
- Page coordinates are integers; fractional `pageX`/`pageY` are not modelled.
- `JsValue` numbers are integers, so a NaN (falsy, and not `false`) returned
  by the open callback cannot be expressed; it would display the menu like
  any other non-`false` value.
