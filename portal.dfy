/**
 * `Ui_MainWindow` without its widgets: the listing repository, the agent
 * session and the selection, with add, edit, delete, the sidebar's agent or
 * buyer view, and login and logout.
 */
module Portal {
  import opened Wrappers
  import opened Text
  import opened Listings
  import opened Counter
  import opened Credentials

  /** Every integer id in the list is at most `n`. */
  ghost predicate IdsAtMost(ps: seq<Listing>, n: int)
  {
    forall p :: p in ps && p.id.IntKey? ==> p.id.n <= n
  }

  /** Replacing a record by one with the same id keeps the bound. */
  lemma ReplaceKeepsIdsAtMost(ps: seq<Listing>, k: nat, q: Listing, n: int)
    requires k < |ps| && q.id == ps[k].id && IdsAtMost(ps, n)
    ensures IdsAtMost(ps[k := q], n)
  {
    forall p | p in ps[k := q] && p.id.IntKey?
      ensures p.id.n <= n
    {
      var j :| 0 <= j < |ps| && ps[k := q][j] == p;
      assert p.id == ps[j].id && ps[j] in ps;
    }
  }

  /** How an edit or delete ended; each failure is one warning box of the window. */
  datatype Outcome = Done | NoSelection | Unauthorized | Cancelled | NotFound

  class MainWindow {
    /** `self.properties`, which is always the same list as the global `CURRENT_PROPERTIES`. */
    var properties: seq<Listing>
    var isAgentLoggedIn: bool
    var agentUsername: Option<string>
    /** `self.selected_property`: the card last clicked, if any. */
    var selected: Option<Listing>
    /** The id generator, shared by every add. */
    const counter: PropertyCounter

    /**
     * The session is logged in exactly when it has a name, and the counter is
     * at least every integer id in the list, so an issued id is never in use.
     */
    ghost predicate Valid()
      reads this, counter
    {
      && (isAgentLoggedIn <==> agentUsername.Some?)
      && IdsAtMost(properties, counter.currentId)
    }

    /**
     * `setupUi`: takes the list, seeds the counter from it and starts in agent
     * mode exactly when a non-empty initial user is given.
     */
    constructor (initialProperties: seq<Listing>, initialUser: Option<string>)
      ensures Valid() && fresh(counter)
      ensures properties == initialProperties
      ensures counter.currentId == MaxIntId(initialProperties)
      ensures isAgentLoggedIn == (initialUser.Some? && initialUser.value != [])
      ensures agentUsername == if isAgentLoggedIn then initialUser else None
      ensures selected == None
    {
      var c := new PropertyCounter();
      c.Initialize(initialProperties);
      properties := initialProperties;
      counter := c;
      if initialUser.Some? && initialUser.value != [] {
        isAgentLoggedIn := true;
        agentUsername := initialUser;
      } else {
        isAgentLoggedIn := false;
        agentUsername := None;
      }
      selected := None;
    }

    /** `on_card_clicked`: the clicked card's listing becomes the selection. */
    method Select(p: Listing)
      requires Valid() && p in properties
      modifies this`selected
      ensures Valid()
      ensures selected == Some(p)
    {
      selected := Some(p);
    }

    /**
     * `open_add_property_dialog`: `form` is the editor's content when the user
     * pressed save, `None` when the dialog was cancelled. An accepted form is
     * appended as one new record with the next id, owned by the agent.
     */
    method AddProperty(form: Option<EditorForm>) returns (added: bool)
      requires Valid() && isAgentLoggedIn
      modifies this`properties, counter
      ensures Valid()
      ensures added <==> form.Some? && SaveProperty(form.value).Some?
      ensures added ==>
        && counter.currentId == old(counter.currentId) + 1
        && properties == old(properties)
             + [NewListing(SaveProperty(form.value).value, counter.currentId, agentUsername.value)]
      ensures added ==> forall p :: p in old(properties) && p.id.IntKey? ==> p.id.n < counter.currentId
      ensures !added ==> properties == old(properties) && counter.currentId == old(counter.currentId)
    {
      if form.None? {
        return false;
      }
      var fields := SaveProperty(form.value);
      if fields.None? {
        return false;
      }
      var id := counter.GetNextId();
      var record := NewListing(fields.value, id, agentUsername.value);
      properties := properties + [record];
      added := true;
    }

    /**
     * `open_edit_property_dialog`: needs a selection the agent may modify and an
     * accepted form; then the first record carrying the selection's id takes
     * the editor's fields and becomes the selection. Nothing changes otherwise.
     */
    method EditProperty(form: Option<EditorForm>) returns (outcome: Outcome)
      requires Valid() && isAgentLoggedIn
      modifies this`properties, this`selected
      ensures Valid()
      ensures old(selected).None? ==> outcome == NoSelection
      ensures old(selected).Some? && !MayModify(old(selected).value.agent, agentUsername.value) ==>
        outcome == Unauthorized
      ensures old(selected).Some? && MayModify(old(selected).value.agent, agentUsername.value) ==>
        var k := FirstIndexWithId(old(properties), old(selected).value.id);
        outcome == if form.None? || SaveProperty(form.value).None? then Cancelled
                   else if k < |old(properties)| then Done
                   else NotFound
      ensures outcome == Done ==>
        var k := FirstIndexWithId(old(properties), old(selected).value.id);
        && k < |old(properties)|
        && properties == old(properties)[k := Merge(old(properties)[k], SaveProperty(form.value).value)]
        && selected == Some(properties[k])
      ensures outcome != Done ==> properties == old(properties) && selected == old(selected)
    {
      if selected.None? {
        return NoSelection;
      }
      var target := selected.value;
      var ownerName := Lower(target.agent);
      if ownerName != [] && ownerName != Lower(agentUsername.value) {
        return Unauthorized;
      }
      if form.None? {
        return Cancelled;
      }
      var fields := SaveProperty(form.value);
      if fields.None? {
        return Cancelled;
      }
      var index := FindIndexById(properties, target.id);
      if index.None? {
        return NotFound;
      }
      var k := index.value;
      ghost var before := properties;
      var updated := Merge(properties[k], fields.value);
      properties := properties[k := updated];
      selected := Some(properties[k]);
      ReplaceKeepsIdsAtMost(before, k, updated, counter.currentId);
      return Done;
    }

    /**
     * `delete_property`: needs a selection the agent may modify and a confirmed
     * question; then every record carrying the selection's id is removed and
     * the selection is cleared. Nothing changes otherwise.
     */
    method DeleteProperty(confirmed: bool) returns (outcome: Outcome)
      requires Valid() && isAgentLoggedIn
      modifies this`properties, this`selected
      ensures Valid()
      ensures old(selected).None? ==> outcome == NoSelection
      ensures old(selected).Some? && !MayModify(old(selected).value.agent, agentUsername.value) ==>
        outcome == Unauthorized
      ensures old(selected).Some? && MayModify(old(selected).value.agent, agentUsername.value) ==>
        outcome == if confirmed then Done else Cancelled
      ensures outcome == Done ==>
        properties == DeleteById(old(properties), old(selected).value.id) && selected == None
      ensures outcome != Done ==> properties == old(properties) && selected == old(selected)
    {
      if selected.None? {
        return NoSelection;
      }
      var target := selected.value;
      var ownerName := Lower(target.agent);
      if ownerName != [] && ownerName != Lower(agentUsername.value) {
        return Unauthorized;
      }
      if !confirmed {
        return Cancelled;
      }
      DeleteByIdMembers(properties, target.id);
      properties := DeleteById(properties, target.id);
      selected := None;
      return Done;
    }

    /**
     * The selection loop of `update_sidebar_listings`: an agent sees, in list
     * order, their own listings (ignoring case) and the unassigned ones, which
     * are exactly the ones they may edit or delete; a buyer sees the whole list.
     */
    method UpdateSidebarListings() returns (displayed: seq<Listing>)
      requires Valid()
      ensures displayed == if isAgentLoggedIn then AgentView(properties, agentUsername.value) else properties
      ensures IsSubsequence(displayed, properties)
      ensures forall p :: p in displayed <==>
        p in properties && (isAgentLoggedIn ==> MayModify(p.agent, agentUsername.value))
    {
      if isAgentLoggedIn {
        var agentName := Lower(agentUsername.value);
        displayed := [];
        for i := 0 to |properties|
          invariant displayed == AgentView(properties[..i], agentUsername.value)
        {
          assert properties[..i + 1][..i] == properties[..i];
          var propAgent := Lower(properties[i].agent);
          if propAgent == agentName || propAgent == [] {
            displayed := displayed + [properties[i]];
          }
        }
        assert properties[..|properties|] == properties;
        AgentViewIsSubsequence(properties, agentUsername.value);
        AgentViewMembers(properties, agentUsername.value);
      } else {
        displayed := properties;
        SubsequenceOfItself(properties);
      }
    }

    /** `on_agent_login_success`: the session becomes the agent's. */
    method OnAgentLoginSuccess(username: string)
      requires Valid()
      modifies this`isAgentLoggedIn, this`agentUsername
      ensures Valid()
      ensures isAgentLoggedIn && agentUsername == Some(username)
    {
      isAgentLoggedIn := true;
      agentUsername := Some(username);
    }

    /** `on_agent_logout`: back to the buyer session, with no selection. */
    method OnAgentLogout()
      requires Valid()
      modifies this`isAgentLoggedIn, this`agentUsername, this`selected
      ensures Valid()
      ensures !isAgentLoggedIn && agentUsername == None && selected == None
    {
      isAgentLoggedIn := false;
      agentUsername := None;
      selected := None;
    }

    /** `on_buyer_view`: an agent is logged out; a buyer session stays as it is. */
    method OnBuyerView()
      requires Valid()
      modifies this`isAgentLoggedIn, this`agentUsername, this`selected
      ensures Valid()
      ensures !isAgentLoggedIn && agentUsername == None
      ensures old(isAgentLoggedIn) ==> selected == None
      ensures !old(isAgentLoggedIn) ==> selected == old(selected)
    {
      if isAgentLoggedIn {
        OnAgentLogout();
      }
    }
  }

  /**
   * Accounts are told apart by exact name while ownership ignores case: any
   * trimmed name that differs from an existing account only in case can be
   * registered, and the new agent passes the ownership check for the listings
   * of the existing one.
   */
  lemma CaseVariantRegistersAndMayModify(accounts: map<string, string>, existing: string,
                                          variant: string, password: string)
    requires existing in accounts
    requires variant != [] && Strip(variant) == variant && variant !in accounts
    requires Lower(variant) == Lower(existing)
    requires |password| >= MinPasswordLength
    ensures CheckRegistration(accounts, variant, password, password) == Success(variant)
    ensures variant in Register(accounts, variant, password, password)
    ensures variant != existing && MayModify(existing, variant)
  {
  }

  /**
   * The starting database accepts a new agent "ALICE", and that agent passes the
   * ownership check for the listings of "alice".
   */
  lemma CaseVariantAgentMayModify()
    ensures CheckRegistration(InitialAccounts, "ALICE", "secret1", "secret1") == Success("ALICE")
    ensures "ALICE" != "alice" && MayModify("alice", "ALICE")
  {
    UpperNameIsNew();
    UpperNameLowers();
    LowerIdempotent("ALICE");
    CaseVariantRegistersAndMayModify(InitialAccounts, "alice", "ALICE", "secret1");
  }

  /** "ALICE" is already trimmed and is not one of the starting accounts. */
  lemma UpperNameIsNew()
    ensures Strip("ALICE") == "ALICE" && "ALICE" !in InitialAccounts
  {
    StripKeepsTrimmed("ALICE");
    UpperNameDiffers();
  }

  /** "ALICE" differs from both starting names. */
  lemma UpperNameDiffers()
    ensures "ALICE" != "alice" && "ALICE" != "ben"
  {
    var upper := "ALICE";
    assert upper[0] != "alice"[0] && upper[0] != "ben"[0];
  }

  /** Lower-casing "ALICE" gives "alice". */
  lemma UpperNameLowers()
    ensures Lower("ALICE") == "alice"
  {
    var lowered, lower := Lower("ALICE"), "alice";
    assert forall i :: 0 <= i < 5 ==> lowered[i] == lower[i];
  }
}
