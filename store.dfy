/**
 The link store of the page: the module-level `allLinks` and `filteredLinks`,
 the search box and the modal's error line, and the handlers that change
 them. DOM inputs arrive as parameters, `confirm(...)` as a boolean,
 `Date.now().toString()` as a caller-chosen id, and `new URL(url)` succeeding
 as the caller-supplied test `isUrl`.
 */
module Store {
  import opened Text
  import opened Links

  /** The message shown when the URL field does not parse. */
  const InvalidUrlMessage: string := "Please enter a valid URL."

  /** How the modal form's fields fare under the submit handler's checks. */
  datatype FormCheck =
    | Incomplete                                            // a required field is blank
    | BadUrl                                                // the URL does not parse
    | Accepted(title: string, url: string, category: string)  // the trimmed fields

  /** The checks of the submit handler: all three fields present once trimmed, then a parsable URL. */
  function CheckForm(title: string, url: string, category: string, isUrl: string -> bool): (r: FormCheck)
    ensures r.Incomplete? <==> Trim(title) == [] || Trim(url) == [] || Trim(category) == []
    ensures r.BadUrl? <==> !r.Incomplete? && !isUrl(Trim(url))
    ensures r.Accepted? ==> r.title == Trim(title) && r.url == Trim(url) && r.category == Trim(category)
    ensures r.Accepted? ==> r.title != [] && r.url != [] && r.category != [] && isUrl(r.url)
  {
    var t, u, c := Trim(title), Trim(url), Trim(category);
    if t == [] || u == [] || c == [] then Incomplete
    else if !isUrl(u) then BadUrl
    else Accepted(t, u, c)
  }

  /**
   The list after an accepted submit: with an id, every record with that id
   is overwritten; without one, a new record with `freshId` is appended.
   */
  function Upsert(links: seq<Link>, id: string, title: string, url: string, category: string, freshId: string): (r: seq<Link>)
    ensures id != [] ==> |r| == |links|
    ensures id == [] ==> |r| == |links| + 1 && r[|links|].id == freshId
  {
    if id != [] then ReplaceById(links, id, Link(id, title, url, category))
    else links + [Link(freshId, title, url, category)]
  }

  /**
   Editing keeps the length and order of the list: records with the id take
   the submitted fields, every other record stays, and an id nobody has
   changes nothing.
   */
  lemma UpsertEdit(links: seq<Link>, id: string, title: string, url: string, category: string, freshId: string)
    requires id != []
    ensures |Upsert(links, id, title, url, category, freshId)| == |links|
    ensures forall i :: 0 <= i < |links| && links[i].id == id ==>
      Upsert(links, id, title, url, category, freshId)[i] == Link(id, title, url, category)
    ensures forall i :: 0 <= i < |links| && links[i].id != id ==>
      Upsert(links, id, title, url, category, freshId)[i] == links[i]
    ensures !HasId(links, id) ==> Upsert(links, id, title, url, category, freshId) == links
    ensures UniqueIds(links) ==> UniqueIds(Upsert(links, id, title, url, category, freshId))
  {
    if !HasId(links, id) {
      ReplaceMissingId(links, id, Link(id, title, url, category));
    }
    if UniqueIds(links) {
      ReplaceKeepsUniqueIds(links, id, Link(id, title, url, category));
    }
  }

  /**
   Adding appends exactly one record carrying the fresh id and keeps the
   existing records as they were; a fresh id nobody has keeps ids unique.
   */
  lemma UpsertAdd(links: seq<Link>, title: string, url: string, category: string, freshId: string)
    ensures |Upsert(links, [], title, url, category, freshId)| == |links| + 1
    ensures Upsert(links, [], title, url, category, freshId)[..|links|] == links
    ensures Upsert(links, [], title, url, category, freshId)[|links|] == Link(freshId, title, url, category)
    ensures UniqueIds(links) && !HasId(links, freshId) ==> UniqueIds(Upsert(links, [], title, url, category, freshId))
  {
    var r := Upsert(links, [], title, url, category, freshId);
    assert r[..|links|] == links;
    if UniqueIds(links) && !HasId(links, freshId) {
      forall i, j | 0 <= i < j < |r| ensures r[i].id != r[j].id {
        if j == |links| {
          assert r[i] == links[i];
        } else {
          assert r[i] == links[i] && r[j] == links[j];
        }
      }
    }
  }

  /** A click deletes: a delete button, on the card of a record that exists, and the user confirmed. */
  predicate DeleteConfirmed(links: seq<Link>, linkId: string, action: Option<string>, confirmed: bool): (deletes: bool)
    ensures deletes ==> confirmed && HasId(links, linkId) && action.Some? && action.value != []
  {
    action == Some("delete") && FindById(links, linkId).Some? && confirmed
  }

  /** What the submit handler did with one submission. */
  datatype SubmitOutcome = Ignored | RejectedUrl | Updated | Added

  class LinkStore {
    /** Every record (`allLinks`). */
    var allLinks: seq<Link>
    /** The records on screen (`filteredLinks`). */
    var filteredLinks: seq<Link>
    /** The raw text of the search box (`searchInput.value`). */
    var searchInput: string
    /** The modal's error line (`modalError.textContent`). */
    var modalError: string

    /** The view is the filter of the full list by the current search box. */
    ghost predicate Valid()
      reads this
    {
      filteredLinks == View(allLinks, searchInput)
    }

    /**
     The page's initial state: both lists empty, as declared at the top of the
     script. The search box and the error line hold whatever the page starts
     with (`search`, `errorLine`); the empty list's view is empty for any search.
     */
    constructor (search: string, errorLine: string)
      ensures Valid()
      ensures allLinks == [] && filteredLinks == [] && searchInput == search && modalError == errorLine
    {
      allLinks, filteredLinks := [], [];
      searchInput, modalError := search, errorLine;
      ViewOfEmpty(search);
    }

    /**
     `filterLinks`: a copy of the whole list for a blank term, otherwise the
     records whose lowercased title, category or url contains the term.
     */
    method FilterLinks()
      modifies this`filteredLinks
      ensures Valid()
      ensures SearchTerm(searchInput) == [] ==> filteredLinks == allLinks
      ensures SearchTerm(searchInput) != [] ==> filteredLinks == Filter(allLinks, SearchTerm(searchInput))
    {
      var term := Trim(ToLower(searchInput));
      if term == [] {
        filteredLinks := allLinks;
      } else {
        filteredLinks := Filter(allLinks, term);
      }
    }

    /** The search box's `input` listener: a new value, then a fresh filter. */
    method Search(value: string)
      modifies this`searchInput, this`filteredLinks
      ensures searchInput == value && Valid()
    {
      searchInput := value;
      FilterLinks();
    }

    /**
     The startup fetch: the loaded array, or an empty list when the request
     or its decoding failed; then the view is recomputed.
     */
    method Load(data: Option<seq<Link>>)
      modifies this`allLinks, this`filteredLinks
      ensures allLinks == (if data.Some? then data.value else [])
      ensures Valid()
    {
      match data {
        case Some(loaded) => allLinks := loaded;
        case None => allLinks := [];
      }
      FilterLinks();
    }

    /**
     `handleModalFormSubmit`: clears the error line, ignores a blank field,
     reports an unparsable URL, and otherwise edits or adds a record and
     re-filters.
     */
    method Submit(id: string, title: string, url: string, category: string, freshId: string, isUrl: string -> bool)
      returns (outcome: SubmitOutcome)
      requires Valid()
      modifies this`allLinks, this`filteredLinks, this`modalError
      ensures Valid()
      ensures outcome == match CheckForm(title, url, category, isUrl)
        case Incomplete => Ignored
        case BadUrl => RejectedUrl
        case Accepted(_, _, _) => if id != [] then Updated else Added
      ensures outcome == Ignored ==> allLinks == old(allLinks) && filteredLinks == old(filteredLinks) && modalError == []
      ensures outcome == RejectedUrl ==>
        allLinks == old(allLinks) && filteredLinks == old(filteredLinks) && modalError == InvalidUrlMessage
      ensures outcome == Updated || outcome == Added ==>
        && modalError == []
        && allLinks == Upsert(old(allLinks), id, Trim(title), Trim(url), Trim(category), freshId)
    {
      modalError := [];
      var check := CheckForm(title, url, category, isUrl);
      match check {
        case Incomplete =>
          outcome := Ignored;
        case BadUrl =>
          modalError := InvalidUrlMessage;
          outcome := RejectedUrl;
        case Accepted(t, u, c) =>
          if id != [] {
            allLinks := ReplaceById(allLinks, id, Link(id, t, u, c));
            outcome := Updated;
          } else {
            allLinks := allLinks + [Link(freshId, t, u, c)];
            outcome := Added;
          }
          FilterLinks();
      }
    }

    /**
     `handleLinksContainerClick`. `action` is None when the click was not on
     a button, and otherwise the button's `data-action` (empty when it has
     none). The record is looked up by the card's id; an edit returns it for
     the modal, whose opening clears the error line, and a confirmed delete
     removes every record with that id.
     */
    method Click(linkId: string, action: Option<string>, confirmed: bool) returns (editing: Option<Link>)
      requires Valid()
      modifies this`allLinks, this`filteredLinks, this`modalError
      ensures Valid()
      ensures editing == if action == Some("edit") then FindById(old(allLinks), linkId) else None
      ensures modalError == if action == Some("edit") && FindById(old(allLinks), linkId).Some? then [] else old(modalError)
      ensures DeleteConfirmed(old(allLinks), linkId, action, confirmed) ==> allLinks == RemoveById(old(allLinks), linkId)
      ensures !DeleteConfirmed(old(allLinks), linkId, action, confirmed) ==>
        allLinks == old(allLinks) && filteredLinks == old(filteredLinks)
    {
      editing := None;
      if action.None? || action.value == [] {
        return;
      }
      var link := FindById(allLinks, linkId);
      if link.None? {
        return;
      }
      if action.value == "edit" {
        modalError := [];
        editing := link;
      } else if action.value == "delete" {
        if confirmed {
          allLinks := RemoveById(allLinks, linkId);
          FilterLinks();
        }
      }
    }
  }
}
