/**
 * Property records of the in-memory listing manager and the pure operations on
 * the list of them: the editor's validation, the merge an edit performs, the
 * filter a delete performs, the agent's view and the ownership rule.
 */
module Listings {
  import opened Wrappers
  import opened Text

  /** A record's `id`: an integer, or any other value a record may carry. */
  datatype Key = IntKey(n: int) | TextKey(text: string)

  /**
   * One property record. `bathrooms` counts half bathrooms (the spin box steps
   * by 0.5), so 3.5 bathrooms is 7. `imagePath` is `None` for Python's `None`.
   */
  datatype Listing = Listing(
    id: Key,
    title: string,
    price: string,
    info: string,
    agent: string,
    agentPhone: string,
    propType: string,
    rooms: nat,
    bathrooms: nat,
    bedrooms: nat,
    listingType: string,
    imagePath: Option<string>)

  /** What the property editor's widgets hold when the user presses save. */
  datatype EditorForm = EditorForm(
    title: string,
    listingType: string,
    price: string,
    propType: string,
    bedrooms: nat,
    bathrooms: nat,
    info: string,
    imagePath: string)

  /** The record the editor hands back: every field the editor owns. */
  datatype ListingFields = ListingFields(
    title: string,
    price: string,
    info: string,
    listingType: string,
    propType: string,
    bedrooms: nat,
    bathrooms: nat,
    rooms: nat,
    imagePath: Option<string>)

  /** The phone number a newly added listing carries. */
  const NewAgentPhone: string := "(New Agent Listing)"

  /** The editor-owned fields of a stored listing. */
  function FieldsOf(p: Listing): ListingFields
  {
    ListingFields(p.title, p.price, p.info, p.listingType, p.propType,
                  p.bedrooms, p.bathrooms, p.rooms, p.imagePath)
  }

  /**
   * `PropertyEditorDialog.save_property`: title, price and description are
   * stripped and required; an empty image path becomes `None`; the room count
   * is the bedroom count plus two. `None` means the form was refused.
   */
  function SaveProperty(form: EditorForm): (r: Option<ListingFields>)
    ensures r.Some? ==>
      && r.value.listingType == form.listingType && r.value.propType == form.propType
      && r.value.bedrooms == form.bedrooms && r.value.bathrooms == form.bathrooms
      && r.value.rooms == form.bedrooms + 2
  {
    var title := Strip(form.title);
    var price := Strip(form.price);
    var info := Strip(form.info);
    var imagePath := Strip(form.imagePath);
    if title == [] || price == [] || info == [] then None
    else Some(ListingFields(title, price, info, form.listingType, form.propType,
                            form.bedrooms, form.bathrooms, form.bedrooms + 2,
                            if imagePath == [] then None else Some(imagePath)))
  }

  /** The editor refuses a form exactly when title, price or description is blank. */
  lemma SavePropertyRefusesBlank(form: EditorForm)
    ensures SaveProperty(form).None? <==> Blank(form.title) || Blank(form.price) || Blank(form.info)
  {
    StripEmptyIff(form.title);
    StripEmptyIff(form.price);
    StripEmptyIff(form.info);
  }

  /**
   * A saved record carries the trimmed, non-empty texts, the choices and counts
   * of the form, two rooms more than bedrooms, and no image exactly when the
   * path was blank.
   */
  lemma SavedRecordShape(form: EditorForm)
    requires SaveProperty(form).Some?
    ensures var f := SaveProperty(form).value;
      && f.title == Strip(form.title) && f.title != []
      && f.price == Strip(form.price) && f.price != []
      && f.info == Strip(form.info) && f.info != []
      && f.listingType == form.listingType && f.propType == form.propType
      && f.bedrooms == form.bedrooms && f.bathrooms == form.bathrooms
      && f.rooms == f.bedrooms + 2
      && (f.imagePath.None? <==> Blank(form.imagePath))
      && (f.imagePath.Some? ==> f.imagePath.value == Strip(form.imagePath) != [])
  {
    StripEmptyIff(form.imagePath);
  }

  /**
   * The record `open_add_property_dialog` appends: the editor's fields with the
   * next id, the logged-in agent and the placeholder phone.
   */
  function NewListing(f: ListingFields, id: int, agent: string): (r: Listing)
    ensures FieldsOf(r) == f
    ensures r.id == IntKey(id) && r.agent == agent && r.agentPhone == NewAgentPhone
  {
    Listing(IntKey(id), f.title, f.price, f.info, agent, NewAgentPhone, f.propType,
            f.rooms, f.bathrooms, f.bedrooms, f.listingType, f.imagePath)
  }

  /**
   * `dict.update` of a stored record with the editor's record: every
   * editor-owned field is replaced, `id`, `agent` and `agent_phone` are kept.
   */
  function Merge(p: Listing, f: ListingFields): (r: Listing)
    ensures FieldsOf(r) == f
    ensures r.id == p.id && r.agent == p.agent && r.agentPhone == p.agentPhone
  {
    p.(title := f.title, price := f.price, info := f.info, listingType := f.listingType,
       propType := f.propType, bedrooms := f.bedrooms, bathrooms := f.bathrooms,
       rooms := f.rooms, imagePath := f.imagePath)
  }

  /**
   * The ownership rule of edit and delete: refused when the listing's agent,
   * lowered, is non-empty and differs from the logged-in agent's name, lowered.
   */
  predicate MayModify(listingAgent: string, username: string): (ok: bool)
    ensures listingAgent == [] ==> ok
    ensures Lower(listingAgent) == Lower(username) ==> ok
  {
    var owner := Lower(listingAgent);
    !(owner != [] && owner != Lower(username))
  }

  /** The agent-view rule: the listing's agent is the viewer, ignoring case, or nobody. */
  predicate ShownToAgent(listingAgent: string, username: string): (shown: bool)
    ensures shown == MayModify(listingAgent, username)
  {
    var owner := Lower(listingAgent);
    owner == Lower(username) || owner == []
  }

  /** Anyone may modify an unassigned listing; an assigned one only its agent. */
  lemma MayModifyIff(listingAgent: string, username: string)
    ensures MayModify(listingAgent, username)
        <==> listingAgent == [] || Lower(listingAgent) == Lower(username)
  {
    LowerEmptyIff(listingAgent);
  }

  /** The ownership rule does not depend on the case of either name. */
  lemma MayModifyIgnoresCase(listingAgent: string, username: string)
    ensures MayModify(Lower(listingAgent), Lower(username)) == MayModify(listingAgent, username)
  {
    LowerIdempotent(listingAgent);
    LowerIdempotent(username);
  }

  /** `a` is `b` with some elements left out, the rest in the same order. */
  ghost predicate IsSubsequence<T>(a: seq<T>, b: seq<T>)
    decreases |b|
  {
    a == [] ||
    (b != [] &&
     ((a[|a| - 1] == b[|b| - 1] && IsSubsequence(a[..|a| - 1], b[..|b| - 1]))
      || IsSubsequence(a, b[..|b| - 1])))
  }

  /** Every sequence is a subsequence of itself. */
  lemma {:induction false} SubsequenceOfItself<T>(s: seq<T>)
    ensures IsSubsequence(s, s)
    decreases |s|
  {
    if s != [] {
      SubsequenceOfItself(s[..|s| - 1]);
    }
  }

  /** The listings an agent's sidebar shows, in list order. */
  function AgentView(ps: seq<Listing>, username: string): (view: seq<Listing>)
    ensures |view| <= |ps|
    ensures forall i :: 0 <= i < |view| ==> MayModify(view[i].agent, username)
  {
    if ps == [] then []
    else
      var rest := AgentView(ps[..|ps| - 1], username);
      if ShownToAgent(ps[|ps| - 1].agent, username) then rest + [ps[|ps| - 1]] else rest
  }

  /** The agent's view keeps the list's order. */
  lemma {:induction false} AgentViewIsSubsequence(ps: seq<Listing>, username: string)
    ensures IsSubsequence(AgentView(ps, username), ps)
  {
    if ps != [] {
      var front := ps[..|ps| - 1];
      AgentViewIsSubsequence(front, username);
      var view := AgentView(ps, username);
      if ShownToAgent(ps[|ps| - 1].agent, username) {
        assert view[..|view| - 1] == AgentView(front, username);
      }
    }
  }

  /**
   * The agent's view holds exactly the listings that agent may edit or delete:
   * theirs, ignoring case, and the unassigned ones.
   */
  lemma {:induction false} AgentViewMembers(ps: seq<Listing>, username: string)
    ensures forall p :: p in AgentView(ps, username) <==> p in ps && MayModify(p.agent, username)
  {
    if ps != [] {
      var front := ps[..|ps| - 1];
      AgentViewMembers(front, username);
      assert ps == front + [ps[|ps| - 1]];
    }
  }

  /**
   * Every listing the agent may modify appears in the view as often as in the
   * list, and no other listing appears.
   */
  lemma {:induction false} AgentViewCounts(ps: seq<Listing>, username: string, p: Listing)
    ensures multiset(AgentView(ps, username))[p] == if MayModify(p.agent, username) then multiset(ps)[p] else 0
  {
    if ps != [] {
      var front, last := ps[..|ps| - 1], ps[|ps| - 1];
      AgentViewCounts(front, username, p);
      assert ps == front + [last];
      assert multiset(ps) == multiset(front) + multiset{last};
      var rest := AgentView(front, username);
      if ShownToAgent(last.agent, username) {
        assert AgentView(ps, username) == rest + [last];
        assert multiset(rest + [last]) == multiset(rest) + multiset{last};
      } else {
        assert AgentView(ps, username) == rest;
      }
    }
  }

  /** The buyer's view, the whole list, holds the agent's view. */
  lemma AgentViewWithinList(ps: seq<Listing>, username: string)
    ensures |AgentView(ps, username)| <= |ps|
    ensures forall p :: p in AgentView(ps, username) ==> p in ps
  {
    AgentViewMembers(ps, username);
    AgentViewIsSubsequence(ps, username);
    SubsequenceNotLonger(AgentView(ps, username), ps);
  }

  lemma {:induction false} SubsequenceNotLonger<T>(a: seq<T>, b: seq<T>)
    requires IsSubsequence(a, b)
    ensures |a| <= |b|
    decreases |b|
  {
    if a != [] {
      if a[|a| - 1] == b[|b| - 1] && IsSubsequence(a[..|a| - 1], b[..|b| - 1]) {
        SubsequenceNotLonger(a[..|a| - 1], b[..|b| - 1]);
      } else {
        SubsequenceNotLonger(a, b[..|b| - 1]);
      }
    }
  }

  /** `[p for p in ps if p['id'] != key]`, the list a delete leaves. */
  function DeleteById(ps: seq<Listing>, key: Key): (rest: seq<Listing>)
    ensures |rest| <= |ps|
    ensures forall i :: 0 <= i < |rest| ==> rest[i].id != key
  {
    if ps == [] then []
    else
      var rest := DeleteById(ps[..|ps| - 1], key);
      if ps[|ps| - 1].id != key then rest + [ps[|ps| - 1]] else rest
  }

  /** How many listings carry `key`. */
  function CountId(ps: seq<Listing>, key: Key): nat
  {
    if ps == [] then 0
    else CountId(ps[..|ps| - 1], key) + (if ps[|ps| - 1].id == key then 1 else 0)
  }

  /** A delete keeps exactly the listings with another id ... */
  lemma {:induction false} DeleteByIdMembers(ps: seq<Listing>, key: Key)
    ensures forall p :: p in DeleteById(ps, key) <==> p in ps && p.id != key
  {
    if ps != [] {
      var front := ps[..|ps| - 1];
      DeleteByIdMembers(front, key);
      assert ps == front + [ps[|ps| - 1]];
    }
  }

  /** ... in their order ... */
  lemma {:induction false} DeleteByIdIsSubsequence(ps: seq<Listing>, key: Key)
    ensures IsSubsequence(DeleteById(ps, key), ps)
  {
    if ps != [] {
      var front := ps[..|ps| - 1];
      DeleteByIdIsSubsequence(front, key);
      var kept := DeleteById(ps, key);
      if ps[|ps| - 1].id != key {
        assert kept[..|kept| - 1] == DeleteById(front, key);
      }
    }
  }

  /** ... and removes one entry for each listing that carried the id. */
  lemma {:induction false} DeleteByIdSize(ps: seq<Listing>, key: Key)
    ensures |DeleteById(ps, key)| + CountId(ps, key) == |ps|
  {
    if ps != [] {
      DeleteByIdSize(ps[..|ps| - 1], key);
    }
  }

  /** Deleting an id no listing carries leaves the list as it is. */
  lemma {:induction false} DeleteAbsentId(ps: seq<Listing>, key: Key)
    requires forall i :: 0 <= i < |ps| ==> ps[i].id != key
    ensures DeleteById(ps, key) == ps
  {
    if ps != [] {
      DeleteAbsentId(ps[..|ps| - 1], key);
    }
  }

  /** Index of the first listing carrying `key`, or `|ps|` when none does. */
  function FirstIndexWithId(ps: seq<Listing>, key: Key): (r: nat)
    ensures r <= |ps|
    ensures r < |ps| ==> ps[r].id == key
    ensures forall j :: 0 <= j < r ==> ps[j].id != key
  {
    if ps == [] then 0
    else if ps[0].id == key then 0
    else 1 + FirstIndexWithId(ps[1..], key)
  }

  /** The first-match description pins down `FirstIndexWithId`. */
  lemma {:induction false} FirstIndexWithIdIs(ps: seq<Listing>, key: Key, k: nat)
    requires k <= |ps| && (k < |ps| ==> ps[k].id == key)
    requires forall j :: 0 <= j < k ==> ps[j].id != key
    ensures FirstIndexWithId(ps, key) == k
  {
    if ps != [] && ps[0].id != key {
      FirstIndexWithIdIs(ps[1..], key, k - 1);
    }
  }

  /**
   * `next(i for i, p in enumerate(ps) if p['id'] == key)`: the first index
   * whose listing carries `key`, or `None` where Python raises `StopIteration`.
   */
  method FindIndexById(ps: seq<Listing>, key: Key) returns (index: Option<nat>)
    ensures index.Some? ==> index.value < |ps| && ps[index.value].id == key
    ensures index.Some? ==> forall j :: 0 <= j < index.value ==> ps[j].id != key
    ensures index.None? ==> forall j :: 0 <= j < |ps| ==> ps[j].id != key
    ensures index == if FirstIndexWithId(ps, key) < |ps| then Some(FirstIndexWithId(ps, key)) else None
  {
    var i := 0;
    while i < |ps|
      invariant 0 <= i <= |ps|
      invariant forall j :: 0 <= j < i ==> ps[j].id != key
    {
      if ps[i].id == key {
        FirstIndexWithIdIs(ps, key, i);
        return Some(i);
      }
      i := i + 1;
    }
    FirstIndexWithIdIs(ps, key, |ps|);
    return None;
  }
}
