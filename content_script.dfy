/** The decision logic of the content script injected into the fantasy-football site: the login
    flag, the choice of the current gameweek, and the sequence of steps `automateTransfer` takes
    on the transfers page to swap one player for another. The page is abstracted to a snapshot of
    what each step queries. */
module ContentScript {
  import opened Wrappers
  import opened Seqs
  import opened Strings
  import opened ElementWaiter

  /** The login flag stored on injection: not logged in exactly when the sign-in heading is on
      the page and its text contains `Sign In`. */
  function LoggedIn(heading: Option<string>): (r: bool)
    ensures !r <==>
      heading.Some? && exists i :: 0 <= i <= |heading.value| - 7 && heading.value[i..][..7] == "Sign In"
  {
    if heading.Some? then ContainsOccurrence(heading.value, "Sign In"); !Contains(heading.value, "Sign In")
    else true
  }

  /** An entry of `data.events` in the bootstrap data. */
  datatype Event = Event(id: int, isCurrent: bool, isNext: bool)

  /** `getCurrentEvent` once the bootstrap data is in hand: the id of the first current event,
      else of the first next event, else the error it throws. */
  function CurrentEvent(events: seq<Event>): (r: Result<int, string>)
    ensures r.Err? <==> forall i :: 0 <= i < |events| ==> !events[i].isCurrent && !events[i].isNext
    ensures r.Err? ==> r.error == "No current or next event found."
    ensures (exists i :: 0 <= i < |events| && events[i].isCurrent) ==>
      exists k :: 0 <= k < |events| && events[k].isCurrent && r == Ok(events[k].id) &&
        forall j :: 0 <= j < k ==> !events[j].isCurrent
    ensures (forall i :: 0 <= i < |events| ==> !events[i].isCurrent) && r.Ok? ==>
      exists k :: 0 <= k < |events| && events[k].isNext && r.value == events[k].id &&
        forall j :: 0 <= j < k ==> !events[j].isNext
  {
    match Find(events, (e: Event) => e.isCurrent)
    case Some(e) => Ok(e.id)
    case None =>
      match Find(events, (e: Event) => e.isNext)
      case Some(e) => Ok(e.id)
      case None => Err("No current or next event found.")
  }

  /** A page element the script reads or clicks: its `href` attribute (anchors) and its text. */
  datatype Node = Node(href: Option<string>, text: string)

  /** An entry of `data.elements` in the bootstrap data. */
  datatype PlayerInfo = PlayerInfo(id: int, webName: string)

  /** What each step of `automateTransfer` finds: the anchors of the page, the node the XPath
      fallback yields, what successive polls for the list-view button and for the search box
      see, the player list of the bootstrap data, and the buttons present when the remove and
      the add control are looked for. */
  datatype Page = Page(
    anchors: seq<Node>,
    navFallback: Option<Node>,
    listViewPolls: seq<Option<Node>>,
    elements: seq<PlayerInfo>,
    buttonsAtRemove: seq<Node>,
    searchPolls: seq<Option<Node>>,
    buttonsAtAdd: seq<Node>)

  /** The effects on the page, in the order the steps take them. */
  datatype Action = ClickNav(nav: Node) | ClickListView(listView: Node) | ClickRemove(remove: Node)
                  | TypeSearch(input: Node, value: string) | ClickAdd(add: Node)

  /** How the sequence ends: all steps done, an error caught and logged, or still waiting for an
      element that the polls seen so far have not shown. */
  datatype Outcome = Completed | Failed(message: string) | Stalled

  datatype Trace = Trace(actions: seq<Action>, outcome: Outcome)

  const ListViewSelector: string :=
    "#root > div:nth-child(2) > div.SquadBase__PusherWrap-sc-16cuskw-0.sQBlU > div > div > div.Layout__Main-sc-eg6k6r-1.eRnmvx > div:nth-child(2) > div.GraphicPatterns__PatternWrapMain-sc-bfgp6c-0.jbGktN > div:nth-child(3) > ul > li:nth-child(2) > a"
  const SearchSelector: string := "input[placeholder*=\"Search players\"]"
  const ListViewTimeout: int := 15000
  const SearchTimeout: int := 10000

  /** The test for the nav link: an `href` that trims to `/transfers` and a text that, trimmed
      and lower-cased, contains `transfers`. */
  predicate IsNavLink(a: Node) {
    a.href.Some? && JsTrim(a.href.value) == "/transfers" && Contains(ToLower(JsTrim(a.text)), "transfers")
  }

  /** The nav link: the first qualifying anchor, else the fallback. */
  function NavControl(page: Page): (r: Option<Node>)
    ensures (exists i :: 0 <= i < |page.anchors| && IsNavLink(page.anchors[i])) ==>
      exists k :: 0 <= k < |page.anchors| && r == Some(page.anchors[k]) && IsNavLink(page.anchors[k]) &&
        forall j :: 0 <= j < k ==> !IsNavLink(page.anchors[j])
    ensures (forall i :: 0 <= i < |page.anchors| ==> !IsNavLink(page.anchors[i])) ==> r == page.navFallback
  {
    match Find(page.anchors, IsNavLink)
    case Some(a) => Some(a)
    case None => page.navFallback
  }

  /** The test in the `forEach` over the buttons: the lower-cased text contains both the
      lower-cased player name and the word of the step. */
  predicate Labels(b: Node, name: string, word: string) {
    Contains(ToLower(b.text), ToLower(name)) && Contains(ToLower(b.text), word)
  }

  /** The button the `forEach` leaves in its variable: the last one that qualifies. */
  function LastButton(buttons: seq<Node>, name: string, word: string): (r: Option<Node>)
    ensures r.None? <==> forall i :: 0 <= i < |buttons| ==> !Labels(buttons[i], name, word)
    ensures r.Some? ==>
      exists k :: 0 <= k < |buttons| && buttons[k] == r.value && Labels(buttons[k], name, word) &&
        forall j :: k < j < |buttons| ==> !Labels(buttons[j], name, word)
  {
    FindLast(buttons, (b: Node) => Labels(b, name, word))
  }

  /** `candidateButtons.forEach(btn => { if (...) chosen = btn; })`. */
  method FindLastButton(buttons: seq<Node>, name: string, word: string) returns (chosen: Option<Node>)
    ensures chosen == LastButton(buttons, name, word)
  {
    chosen := None;
    var i := 0;
    while i < |buttons|
      invariant 0 <= i <= |buttons|
      invariant chosen == LastButton(buttons[..i], name, word)
    {
      assert buttons[..i + 1][..i] == buttons[..i];
      if Labels(buttons[i], name, word) {
        chosen := Some(buttons[i]);
      }
      i := i + 1;
    }
    assert buttons[..i] == buttons;
  }

  /** `elements.find(p => p.id === Number(id))`. */
  function PlayerById(elements: seq<PlayerInfo>, id: int): Option<PlayerInfo> {
    Find(elements, (p: PlayerInfo) => p.id == id)
  }

  const PlayersNotFound: string := "Could not find data for one or both players in bootstrap-static"

  /** Steps 4 and 5: the remove click, the search and the add click, once both names are known. */
  function SwapSteps(page: Page, done: seq<Action>, currentName: string, newName: string): Trace {
    match LastButton(page.buttonsAtRemove, currentName, "remove")
    case None => Trace(done, Failed("Remove button not found for " + currentName))
    case Some(remove) =>
      var done := done + [ClickRemove(remove)];
      match Run(Start(), page.searchPolls, SearchSelector, SearchTimeout).status
      case Waiting => Trace(done, Stalled)
      case Rejected(m) => Trace(done, Failed(m))
      case Resolved(input) =>
        var done := done + [TypeSearch(input, newName)];
        match LastButton(page.buttonsAtAdd, newName, "add")
        case None => Trace(done, Failed("Add button not found for " + newName))
        case Some(add) => Trace(done + [ClickAdd(add)], Completed)
  }

  /** Step 3: both ids are looked up in the bootstrap data, then the swap follows. */
  function PlayerSteps(page: Page, done: seq<Action>, currentId: int, newId: int): Trace {
    var current, next := PlayerById(page.elements, currentId), PlayerById(page.elements, newId);
    if current.None? || next.None? then Trace(done, Failed(PlayersNotFound))
    else SwapSteps(page, done, current.value.webName, next.value.webName)
  }

  /** Step 2: the wait for the list-view button and its click, then the later steps. */
  function ListViewSteps(page: Page, done: seq<Action>, currentId: int, newId: int): Trace {
    match Run(Start(), page.listViewPolls, ListViewSelector, ListViewTimeout).status
    case Waiting => Trace(done, Stalled)
    case Rejected(m) => Trace(done, Failed(m))
    case Resolved(listView) => PlayerSteps(page, done + [ClickListView(listView)], currentId, newId)
  }

  /** What `automateTransfer(currentPlayerId, newPlayerId)` does on a page: each step in turn,
      the first failing step throwing the error that the `catch` logs. */
  function Transfer(page: Page, currentId: int, newId: int): Trace {
    match NavControl(page)
    case None => Trace([], Failed("Transfers nav link not found"))
    case Some(nav) => ListViewSteps(page, [ClickNav(nav)], currentId, newId)
  }

  /** `automateTransfer`, step by step. */
  method AutomateTransfer(page: Page, currentId: int, newId: int) returns (t: Trace)
    ensures t == Transfer(page, currentId, newId)
  {
    var nav := NavControl(page);
    if nav.None? {
      return Trace([], Failed("Transfers nav link not found"));
    }
    var done := [ClickNav(nav.value)];
    var listView := WaitForElement(ListViewSelector, ListViewTimeout, page.listViewPolls);
    if listView.Waiting? {
      return Trace(done, Stalled);
    } else if listView.Rejected? {
      return Trace(done, Failed(listView.message));
    }
    done := done + [ClickListView(listView.element)];
    var current := PlayerById(page.elements, currentId);
    var next := PlayerById(page.elements, newId);
    if current.None? || next.None? {
      return Trace(done, Failed(PlayersNotFound));
    }
    var currentName, newName := current.value.webName, next.value.webName;
    var remove := FindLastButton(page.buttonsAtRemove, currentName, "remove");
    if remove.None? {
      return Trace(done, Failed("Remove button not found for " + currentName));
    }
    done := done + [ClickRemove(remove.value)];
    var input := WaitForElement(SearchSelector, SearchTimeout, page.searchPolls);
    if input.Waiting? {
      return Trace(done, Stalled);
    } else if input.Rejected? {
      return Trace(done, Failed(input.message));
    }
    done := done + [TypeSearch(input.element, newName)];
    var add := FindLastButton(page.buttonsAtAdd, newName, "add");
    if add.None? {
      return Trace(done, Failed("Add button not found for " + newName));
    }
    t := Trace(done + [ClickAdd(add.value)], Completed);
  }

  /** The position of an action in the fixed order of the steps. */
  function Step(a: Action): nat {
    match a
    case ClickNav(_) => 0
    case ClickListView(_) => 1
    case ClickRemove(_) => 2
    case TypeSearch(_, _) => 3
    case ClickAdd(_) => 4
  }

  /** The actions are the steps in their order, none skipped, and five exactly on success. */
  predicate InStepOrder(t: Trace) {
    |t.actions| <= 5 &&
    (forall i :: 0 <= i < |t.actions| ==> Step(t.actions[i]) == i) &&
    (t.outcome.Completed? <==> |t.actions| == 5)
  }

  lemma SwapStepsInOrder(page: Page, done: seq<Action>, currentName: string, newName: string)
    requires |done| == 2 && Step(done[0]) == 0 && Step(done[1]) == 1
    ensures InStepOrder(SwapSteps(page, done, currentName, newName))
    ensures SwapSteps(page, done, currentName, newName).actions[..2] == done
  {
    var t := SwapSteps(page, done, currentName, newName);
    var remove := LastButton(page.buttonsAtRemove, currentName, "remove");
    if remove.Some? {
      var d3 := done + [ClickRemove(remove.value)];
      var input := Run(Start(), page.searchPolls, SearchSelector, SearchTimeout).status;
      if input.Resolved? {
        var d4 := d3 + [TypeSearch(input.element, newName)];
        var add := LastButton(page.buttonsAtAdd, newName, "add");
        if add.Some? {
          assert t == Trace(d4 + [ClickAdd(add.value)], Completed);
        } else {
          assert t == Trace(d4, Failed("Add button not found for " + newName));
        }
      } else if input.Rejected? {
        assert t == Trace(d3, Failed(input.message));
      } else {
        assert t == Trace(d3, Stalled);
      }
    } else {
      assert t == Trace(done, Failed("Remove button not found for " + currentName));
    }
  }

  lemma PlayerStepsInOrder(page: Page, done: seq<Action>, currentId: int, newId: int)
    requires |done| == 2 && Step(done[0]) == 0 && Step(done[1]) == 1
    ensures InStepOrder(PlayerSteps(page, done, currentId, newId))
    ensures PlayerSteps(page, done, currentId, newId).actions[..2] == done
  {
    var current, next := PlayerById(page.elements, currentId), PlayerById(page.elements, newId);
    if current.Some? && next.Some? {
      SwapStepsInOrder(page, done, current.value.webName, next.value.webName);
    } else {
      assert done[..2] == done;
    }
  }

  lemma ListViewStepsInOrder(page: Page, nav: Node, currentId: int, newId: int)
    ensures InStepOrder(ListViewSteps(page, [ClickNav(nav)], currentId, newId))
    ensures ListViewSteps(page, [ClickNav(nav)], currentId, newId).actions[..1] == [ClickNav(nav)]
  {
    var listView := Run(Start(), page.listViewPolls, ListViewSelector, ListViewTimeout).status;
    if listView.Resolved? {
      var d2 := [ClickNav(nav)] + [ClickListView(listView.element)];
      PlayerStepsInOrder(page, d2, currentId, newId);
      assert PlayerSteps(page, d2, currentId, newId).actions[..2][..1] == [ClickNav(nav)];
    }
  }

  /** The actions taken are the steps in their order, with none skipped; all five are taken
      exactly when the sequence completes, so a failure stops every later step. */
  lemma TransferFollowsStepOrder(page: Page, currentId: int, newId: int)
    ensures InStepOrder(Transfer(page, currentId, newId))
  {
    TransferAfterNav(page, currentId, newId);
    if NavControl(page).Some? {
      ListViewStepsInOrder(page, NavControl(page).value, currentId, newId);
    }
  }

  lemma ListViewStepsUnknownPlayer(page: Page, nav: Node, currentId: int, newId: int)
    requires PlayerById(page.elements, currentId).None? || PlayerById(page.elements, newId).None?
    ensures |ListViewSteps(page, [ClickNav(nav)], currentId, newId).actions| <= 2
  {
    var listView := Run(Start(), page.listViewPolls, ListViewSelector, ListViewTimeout).status;
    if listView.Resolved? {
      var d2 := [ClickNav(nav)] + [ClickListView(listView.element)];
      assert PlayerSteps(page, d2, currentId, newId) == Trace(d2, Failed(PlayersNotFound));
    }
  }

  /** When either player id is missing from the bootstrap data, the sequence stops after at most
      the nav and list-view clicks: nothing is removed, searched or added. */
  lemma UnknownPlayerStopsBeforeSwap(page: Page, currentId: int, newId: int)
    requires PlayerById(page.elements, currentId).None? || PlayerById(page.elements, newId).None?
    ensures var t := Transfer(page, currentId, newId);
      !t.outcome.Completed? && forall i :: 0 <= i < |t.actions| ==> Step(t.actions[i]) < 2
  {
    TransferFollowsStepOrder(page, currentId, newId);
    TransferAfterNav(page, currentId, newId);
    if NavControl(page).Some? {
      ListViewStepsUnknownPlayer(page, NavControl(page).value, currentId, newId);
    }
  }

  /** Step 1 decides everything that follows: without a nav link the sequence fails before any
      action, and with one it clicks it and goes on with the later steps. */
  lemma TransferAfterNav(page: Page, currentId: int, newId: int)
    ensures NavControl(page).None? ==>
      Transfer(page, currentId, newId) == Trace([], Failed("Transfers nav link not found"))
    ensures NavControl(page).Some? ==>
      Transfer(page, currentId, newId) == ListViewSteps(page, [ClickNav(NavControl(page).value)], currentId, newId)
  {
  }

  /** The first action clicks the nav link that was chosen: the first qualifying anchor when
      there is one, and the fallback otherwise. */
  lemma NavClickedFirst(page: Page, currentId: int, newId: int)
    requires NavControl(page).Some?
    ensures |Transfer(page, currentId, newId).actions| > 0
    ensures Transfer(page, currentId, newId).actions[0] == ClickNav(NavControl(page).value)
  {
    TransferAfterNav(page, currentId, newId);
    ListViewStepsStartWithNav(page, NavControl(page).value, currentId, newId);
  }

  lemma ListViewStepsStartWithNav(page: Page, nav: Node, currentId: int, newId: int)
    ensures |ListViewSteps(page, [ClickNav(nav)], currentId, newId).actions| > 0
    ensures ListViewSteps(page, [ClickNav(nav)], currentId, newId).actions[0] == ClickNav(nav)
  {
    ListViewStepsInOrder(page, nav, currentId, newId);
    var t := ListViewSteps(page, [ClickNav(nav)], currentId, newId);
    assert t.actions[..1][0] == ClickNav(nav);
  }

  lemma SwapStepsCompleted(page: Page, done: seq<Action>, currentName: string, newName: string)
    requires |done| == 2
    requires SwapSteps(page, done, currentName, newName).outcome.Completed?
    ensures var t := SwapSteps(page, done, currentName, newName);
      |t.actions| == 5 &&
      t.actions[2] == ClickRemove(LastButton(page.buttonsAtRemove, currentName, "remove").value) &&
      LastButton(page.buttonsAtRemove, currentName, "remove").Some? &&
      t.actions[3].TypeSearch? && t.actions[3].value == newName &&
      LastButton(page.buttonsAtAdd, newName, "add").Some? &&
      t.actions[4] == ClickAdd(LastButton(page.buttonsAtAdd, newName, "add").value)
  {
    var t := SwapSteps(page, done, currentName, newName);
    var remove := LastButton(page.buttonsAtRemove, currentName, "remove");
    var input := Run(Start(), page.searchPolls, SearchSelector, SearchTimeout).status;
    var add := LastButton(page.buttonsAtAdd, newName, "add");
    assert remove.Some? && input.Resolved? && add.Some?;
    assert t == Trace(done + [ClickRemove(remove.value), TypeSearch(input.element, newName), ClickAdd(add.value)], Completed);
  }

  /** The remove click took the last button labelled with the current player's name and
      `remove`, the search typed the new name, and the add click took the last button labelled
      with it and `add`. */
  predicate UsesLastButtons(page: Page, t: Trace, currentId: int, newId: int) {
    var current, next := PlayerById(page.elements, currentId), PlayerById(page.elements, newId);
    current.Some? && next.Some? && |t.actions| == 5 &&
    t.actions[2].ClickRemove? &&
    Some(t.actions[2].remove) == LastButton(page.buttonsAtRemove, current.value.webName, "remove") &&
    t.actions[3].TypeSearch? && t.actions[3].value == next.value.webName &&
    t.actions[4].ClickAdd? &&
    Some(t.actions[4].add) == LastButton(page.buttonsAtAdd, next.value.webName, "add")
  }

  lemma ListViewStepsCompleted(page: Page, nav: Node, currentId: int, newId: int)
    requires ListViewSteps(page, [ClickNav(nav)], currentId, newId).outcome.Completed?
    ensures UsesLastButtons(page, ListViewSteps(page, [ClickNav(nav)], currentId, newId), currentId, newId)
  {
    var listView := Run(Start(), page.listViewPolls, ListViewSelector, ListViewTimeout).status;
    assert listView.Resolved?;
    var d2 := [ClickNav(nav)] + [ClickListView(listView.element)];
    var current, next := PlayerById(page.elements, currentId), PlayerById(page.elements, newId);
    assert PlayerSteps(page, d2, currentId, newId).outcome.Completed?;
    assert current.Some? && next.Some?;
    SwapStepsCompleted(page, d2, current.value.webName, next.value.webName);
  }

  /** A completed transfer removes with the last qualifying remove button, types the new name
      and adds with the last qualifying add button. */
  lemma CompletedSwapUsesLastButtons(page: Page, currentId: int, newId: int)
    requires Transfer(page, currentId, newId).outcome.Completed?
    ensures UsesLastButtons(page, Transfer(page, currentId, newId), currentId, newId)
  {
    TransferAfterNav(page, currentId, newId);
    ListViewStepsCompleted(page, NavControl(page).value, currentId, newId);
  }

  /** In every swap, finished or not: a remove click is on the last button labelled with the
      current name and `remove`, a search types the new name, and an add click is on the last
      button labelled with that name and `add`. */
  lemma SwapStepsActions(page: Page, done: seq<Action>, currentName: string, newName: string)
    requires |done| == 2
    ensures var t := SwapSteps(page, done, currentName, newName);
      var remove, add := LastButton(page.buttonsAtRemove, currentName, "remove"), LastButton(page.buttonsAtAdd, newName, "add");
      |t.actions| > 2 ==>
        remove.Some? && t.actions[2] == ClickRemove(remove.value) &&
        (|t.actions| > 3 ==> t.actions[3].TypeSearch? && t.actions[3].value == newName) &&
        (|t.actions| > 4 ==> add.Some? && t.actions[4] == ClickAdd(add.value))
  {
    var t := SwapSteps(page, done, currentName, newName);
    var remove := LastButton(page.buttonsAtRemove, currentName, "remove");
    if remove.Some? {
      var d3 := done + [ClickRemove(remove.value)];
      var input := Run(Start(), page.searchPolls, SearchSelector, SearchTimeout).status;
      if input.Resolved? {
        var d4 := d3 + [TypeSearch(input.element, newName)];
        var add := LastButton(page.buttonsAtAdd, newName, "add");
        if add.Some? {
          assert t == Trace(d4 + [ClickAdd(add.value)], Completed);
        } else {
          assert t == Trace(d4, Failed("Add button not found for " + newName));
        }
      } else if input.Rejected? {
        assert t == Trace(d3, Failed(input.message));
      } else {
        assert t == Trace(d3, Stalled);
      }
    } else {
      assert t == Trace(done, Failed("Remove button not found for " + currentName));
    }
  }

  /** The buttons a transfer clicks, whether it completes, fails or stalls later: once it gets
      past the player look-up, its remove click is on the last qualifying remove button, its
      search types the new player's name, and its add click is on the last qualifying add
      button. */
  lemma TransferUsesLastButtons(page: Page, currentId: int, newId: int)
    ensures var t := Transfer(page, currentId, newId);
      var current, next := PlayerById(page.elements, currentId), PlayerById(page.elements, newId);
      |t.actions| > 2 ==>
        current.Some? && next.Some? &&
        var remove := LastButton(page.buttonsAtRemove, current.value.webName, "remove");
        var add := LastButton(page.buttonsAtAdd, next.value.webName, "add");
        remove.Some? && t.actions[2] == ClickRemove(remove.value) &&
        (|t.actions| > 3 ==> t.actions[3].TypeSearch? && t.actions[3].value == next.value.webName) &&
        (|t.actions| > 4 ==> add.Some? && t.actions[4] == ClickAdd(add.value))
  {
    TransferAfterNav(page, currentId, newId);
    var current, next := PlayerById(page.elements, currentId), PlayerById(page.elements, newId);
    if NavControl(page).Some? {
      var nav := NavControl(page).value;
      var listView := Run(Start(), page.listViewPolls, ListViewSelector, ListViewTimeout).status;
      if listView.Resolved? {
        var d2 := [ClickNav(nav)] + [ClickListView(listView.element)];
        assert Transfer(page, currentId, newId) == PlayerSteps(page, d2, currentId, newId);
        if current.Some? && next.Some? {
          SwapStepsActions(page, d2, current.value.webName, next.value.webName);
        }
      }
    }
  }

  /** The outcome of the swap steps: a missing remove or add button fails its own step with
      its message after the actions before it, a search box that never appears fails or stalls
      after the remove click, and the swap completes exactly when both buttons and the search
      box are found. */
  lemma SwapStepsOutcome(page: Page, done: seq<Action>, name: string, newName: string)
    ensures var t := SwapSteps(page, done, name, newName);
      var remove, add := LastButton(page.buttonsAtRemove, name, "remove"), LastButton(page.buttonsAtAdd, newName, "add");
      var input := Run(Start(), page.searchPolls, SearchSelector, SearchTimeout).status;
      (remove.None? ==> t == Trace(done, Failed("Remove button not found for " + name))) &&
      (remove.Some? && input.Rejected? ==> t == Trace(done + [ClickRemove(remove.value)], Failed(input.message))) &&
      (remove.Some? && input.Waiting? ==> t == Trace(done + [ClickRemove(remove.value)], Stalled)) &&
      (remove.Some? && input.Resolved? && add.None? ==>
        t == Trace(done + [ClickRemove(remove.value), TypeSearch(input.element, newName)],
                   Failed("Add button not found for " + newName))) &&
      (t.outcome.Completed? <==> remove.Some? && input.Resolved? && add.Some?)
  {
    var remove := LastButton(page.buttonsAtRemove, name, "remove");
    if remove.Some? {
      var input := Run(Start(), page.searchPolls, SearchSelector, SearchTimeout).status;
      if input.Resolved? {
        assert done + [ClickRemove(remove.value)] + [TypeSearch(input.element, newName)] ==
          done + [ClickRemove(remove.value), TypeSearch(input.element, newName)];
      }
    }
  }

  /** The nav and list-view clicks that precede the swap steps. */
  function NavAndListView(page: Page): seq<Action>
    requires NavControl(page).Some?
    requires Run(Start(), page.listViewPolls, ListViewSelector, ListViewTimeout).status.Resolved?
  {
    [ClickNav(NavControl(page).value),
     ClickListView(Run(Start(), page.listViewPolls, ListViewSelector, ListViewTimeout).status.element)]
  }

  /** Once the nav link, the list view and both players are found, the transfer goes on with the
      swap steps for the two players' names after the nav and list-view clicks. */
  lemma TransferReachesSwap(page: Page, currentId: int, newId: int)
    requires NavControl(page).Some?
    requires Run(Start(), page.listViewPolls, ListViewSelector, ListViewTimeout).status.Resolved?
    requires PlayerById(page.elements, currentId).Some? && PlayerById(page.elements, newId).Some?
    ensures Transfer(page, currentId, newId) ==
      SwapSteps(page, NavAndListView(page), PlayerById(page.elements, currentId).value.webName,
                PlayerById(page.elements, newId).value.webName)
  {
    TransferAfterNav(page, currentId, newId);
    var nav := NavControl(page).value;
    var listView := Run(Start(), page.listViewPolls, ListViewSelector, ListViewTimeout).status;
    var d2 := NavAndListView(page);
    assert [ClickNav(nav)] + [ClickListView(listView.element)] == d2;
    assert ListViewSteps(page, [ClickNav(nav)], currentId, newId) == PlayerSteps(page, d2, currentId, newId);
  }

  /** So, past the player look-up, a missing remove button fails the transfer right after the
      nav and list-view clicks with `Remove button not found for <name>`; a search box that
      never appears fails or stalls it after the remove click; a missing add button fails it
      after the search with `Add button not found for <name>`; and the transfer completes
      exactly when both buttons and the search box are found. */
  lemma TransferAfterPlayers(page: Page, currentId: int, newId: int)
    requires NavControl(page).Some?
    requires Run(Start(), page.listViewPolls, ListViewSelector, ListViewTimeout).status.Resolved?
    requires PlayerById(page.elements, currentId).Some? && PlayerById(page.elements, newId).Some?
    ensures var t, d2 := Transfer(page, currentId, newId), NavAndListView(page);
      var name := PlayerById(page.elements, currentId).value.webName;
      var newName := PlayerById(page.elements, newId).value.webName;
      var remove, add := LastButton(page.buttonsAtRemove, name, "remove"), LastButton(page.buttonsAtAdd, newName, "add");
      var input := Run(Start(), page.searchPolls, SearchSelector, SearchTimeout).status;
      (remove.None? ==> t == Trace(d2, Failed("Remove button not found for " + name))) &&
      (remove.Some? && input.Rejected? ==> t == Trace(d2 + [ClickRemove(remove.value)], Failed(input.message))) &&
      (remove.Some? && input.Waiting? ==> t == Trace(d2 + [ClickRemove(remove.value)], Stalled)) &&
      (remove.Some? && input.Resolved? && add.None? ==>
        t == Trace(d2 + [ClickRemove(remove.value), TypeSearch(input.element, newName)],
                   Failed("Add button not found for " + newName))) &&
      (t.outcome.Completed? <==> remove.Some? && input.Resolved? && add.Some?)
  {
    TransferReachesSwap(page, currentId, newId);
    SwapStepsOutcome(page, NavAndListView(page), PlayerById(page.elements, currentId).value.webName,
                     PlayerById(page.elements, newId).value.webName);
  }
}
