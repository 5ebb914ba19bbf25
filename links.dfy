/**
 Link records and the pure list operations the handlers apply to them:
 `Array.prototype.filter` (Select), the search predicate and the filtered
 view, the `map` that overwrites records by id, the `filter` that deletes by
 id, and the `find` that looks a record up.
 */
module Links {
  import opened Text

  datatype Option<T> = None | Some(value: T)

  /** One bookmark: every field is a string, `id` is meant to be unique. */
  datatype Link = Link(id: string, title: string, url: string, category: string)

  // ---------------------------------------------------------------------------
  // Array.prototype.filter and order-preserving subsequences
  // ---------------------------------------------------------------------------

  /** `s.filter(p)`: the elements of `s` that satisfy `p`, in their original order. */
  function Select<T>(s: seq<T>, p: T -> bool): (r: seq<T>)
    ensures |r| <= |s|
    ensures forall x :: x in r ==> x in s && p(x)
  {
    if s == [] then []
    else if p(s[0]) then [s[0]] + Select(s[1..], p)
    else Select(s[1..], p)
  }

  /** `idx` lists, in increasing order, positions of `s` whose elements spell out `r`. */
  ghost predicate Embeds<T>(r: seq<T>, s: seq<T>, idx: seq<int>)
  {
    && |idx| == |r|
    && (forall k :: 0 <= k < |idx| ==> 0 <= idx[k] < |s| && r[k] == s[idx[k]])
    && (forall k, m :: 0 <= k < m < |idx| ==> idx[k] < idx[m])
  }

  /** `r` is an order-preserving subsequence of `s`. */
  ghost predicate IsSubsequence<T>(r: seq<T>, s: seq<T>)
  {
    exists idx :: Embeds(r, s, idx)
  }

  /** Positions of a tail, renumbered as positions of the whole sequence `[x] + t`. */
  lemma ShiftPositions<T>(x: T, t: seq<T>, r: seq<T>, rest: seq<int>) returns (shifted: seq<int>)
    requires Embeds(r, t, rest)
    ensures Embeds(r, [x] + t, shifted)
    ensures forall i :: 1 <= i <= |t| ==> (i in shifted <==> i - 1 in rest)
    ensures 0 !in shifted
    ensures forall k :: 0 <= k < |shifted| ==> shifted[k] > 0
  {
    shifted := seq(|rest|, k requires 0 <= k < |rest| => rest[k] + 1);
    var s := [x] + t;
    forall k | 0 <= k < |shifted| ensures r[k] == s[shifted[k]] {
      assert s[rest[k] + 1] == t[rest[k]];
    }
    forall i | 1 <= i <= |t| && i - 1 in rest ensures i in shifted {
      var k :| 0 <= k < |rest| && rest[k] == i - 1;
      assert shifted[k] == i;
    }
  }

  /** Position 0 can be put in front of positions that all lie after it. */
  lemma PrependPosition<T>(s: seq<T>, r: seq<T>, idx: seq<int>)
    requires s != [] && Embeds(r, s, idx)
    requires forall k :: 0 <= k < |idx| ==> idx[k] > 0
    ensures Embeds([s[0]] + r, s, [0] + idx)
  {
    var r', idx' := [s[0]] + r, [0] + idx;
    forall k | 0 <= k < |idx'| ensures 0 <= idx'[k] < |s| && r'[k] == s[idx'[k]] {
      if k > 0 {
        assert r'[k] == r[k - 1] && idx'[k] == idx[k - 1];
      }
    }
    forall k, m | 0 <= k < m < |idx'| ensures idx'[k] < idx'[m] {
      if k > 0 {
        assert idx'[k] == idx[k - 1] && idx'[m] == idx[m - 1];
      }
    }
  }

  /**
   Select keeps exactly the positions whose element satisfies `p`, in order:
   the result is spelt out by the increasing list of those positions.
   */
  lemma {:induction false} SelectPositions<T>(s: seq<T>, p: T -> bool) returns (idx: seq<int>)
    ensures Embeds(Select(s, p), s, idx)
    ensures forall i :: 0 <= i < |s| ==> (p(s[i]) <==> i in idx)
  {
    if s == [] {
      idx := [];
    } else {
      var rest := SelectPositions(s[1..], p);
      var tail := Select(s[1..], p);
      assert s == [s[0]] + s[1..];
      var shifted := ShiftPositions(s[0], s[1..], tail, rest);
      if p(s[0]) {
        idx := [0] + shifted;
        assert Select(s, p) == [s[0]] + tail;
        PrependPosition(s, tail, shifted);
      } else {
        idx := shifted;
      }
      forall i | 0 <= i < |s| ensures p(s[i]) <==> i in idx {
        if i > 0 {
          assert s[i] == s[1..][i - 1];
        }
      }
    }
  }

  /** A selection is an order-preserving subsequence of its input. */
  lemma SelectIsSubsequence<T>(s: seq<T>, p: T -> bool)
    ensures IsSubsequence(Select(s, p), s)
  {
    var idx := SelectPositions(s, p);
  }

  /** An element appears in the selection exactly when it appears in the input and satisfies `p`. */
  lemma {:induction false} SelectMembership<T>(s: seq<T>, p: T -> bool, x: T)
    ensures x in Select(s, p) <==> x in s && p(x)
  {
    if s != [] {
      SelectMembership(s[1..], p, x);
      assert s == [s[0]] + s[1..];
    }
  }

  /** Selecting with a predicate that every element satisfies keeps the whole sequence. */
  lemma {:induction false} SelectAll<T>(s: seq<T>, p: T -> bool)
    requires forall i :: 0 <= i < |s| ==> p(s[i])
    ensures Select(s, p) == s
  {
    if s != [] {
      SelectAll(s[1..], p);
      assert s == [s[0]] + s[1..];
    }
  }

  /** Selection distributes over concatenation. */
  lemma {:induction false} SelectAppend<T>(s: seq<T>, t: seq<T>, p: T -> bool)
    ensures Select(s + t, p) == Select(s, p) + Select(t, p)
  {
    if s == [] {
      assert s + t == t;
    } else {
      assert (s + t)[1..] == s[1..] + t;
      SelectAppend(s[1..], t, p);
    }
  }

  /** Two selections can be applied in either order. */
  lemma {:induction false} SelectCommute<T>(s: seq<T>, p: T -> bool, q: T -> bool)
    ensures Select(Select(s, p), q) == Select(Select(s, q), p)
  {
    if s != [] {
      SelectCommute(s[1..], p, q);
    }
  }

  // ---------------------------------------------------------------------------
  // Search: the filtered view
  // ---------------------------------------------------------------------------

  /** The callback of the search filter (index.js:117-119): `term` in any lowercased field. */
  predicate Matches(link: Link, term: string): (m: bool)
    ensures term == [] ==> m
  {
    IncludesEmpty(ToLower(link.title));
    || Includes(ToLower(link.title), term)
    || Includes(ToLower(link.category), term)
    || Includes(ToLower(link.url), term)
  }

  /** `allLinks.filter(link => Matches(link, term))`. */
  function Filter(links: seq<Link>, term: string): (r: seq<Link>)
    ensures |r| <= |links|
  {
    Select(links, (l: Link) => Matches(l, term))
  }

  /** The search term as filterLinks derives it from the search box: lowercased, then trimmed. */
  function SearchTerm(input: string): (term: string)
    ensures |term| <= |input|
  {
    Trim(ToLower(input))
  }

  /** What filterLinks assigns to `filteredLinks` for the search box value `input`. */
  function View(links: seq<Link>, input: string): (r: seq<Link>)
    ensures SearchTerm(input) == [] ==> r == links
    ensures |r| <= |links|
  {
    var term := SearchTerm(input);
    if term == [] then links else Filter(links, term)
  }

  /**
   For a blank term the view is the whole list; for any other term it is an
   order-preserving subsequence made of exactly the matching records.
   */
  lemma ViewSpec(links: seq<Link>, input: string)
    ensures IsSubsequence(View(links, input), links)
    ensures forall l :: l in View(links, input) <==> l in links && (SearchTerm(input) == [] || Matches(l, SearchTerm(input)))
  {
    var term := SearchTerm(input);
    if term == [] {
      SubsequenceOfItself(links);
    } else {
      FilterSpec(links, term);
    }
  }

  /** With no records, every search shows nothing. */
  lemma ViewOfEmpty(input: string)
    ensures View([], input) == []
  {
    assert Select([], (l: Link) => Matches(l, SearchTerm(input))) == [];
  }

  /** Every sequence is an order-preserving subsequence of itself. */
  lemma SubsequenceOfItself<T>(s: seq<T>)
    ensures IsSubsequence(s, s)
  {
    assert Embeds(s, s, seq(|s|, k requires 0 <= k < |s| => k));
  }

  /** The search filter keeps an order-preserving subsequence: exactly the matching records. */
  lemma FilterSpec(links: seq<Link>, term: string)
    ensures IsSubsequence(Filter(links, term), links)
    ensures forall l :: l in Filter(links, term) <==> l in links && Matches(l, term)
  {
    var p := (l: Link) => Matches(l, term);
    SelectIsSubsequence(links, p);
    forall l ensures l in Select(links, p) <==> l in links && p(l) {
      SelectMembership(links, p, l);
    }
  }

  /**
   For a search box that is not all whitespace (so the term is not empty),
   position `i` of `links` is in the view exactly when
   its link matches, and the view lists those links in their original order.
   */
  lemma ViewPositions(links: seq<Link>, input: string) returns (idx: seq<int>)
    requires !AllWhitespace(input)
    ensures Embeds(View(links, input), links, idx)
    ensures forall i :: 0 <= i < |links| ==> (Matches(links[i], SearchTerm(input)) <==> i in idx)
  {
    SearchTermShape(input);
    idx := SelectPositions(links, (l: Link) => Matches(l, SearchTerm(input)));
  }

  /**
   The match is case-insensitive on both sides: the term is compared against
   lowercased fields, so a link whose fields agree up to ASCII case with
   another's matches the same terms, and a search box value is equivalent to
   its lowercased form.
   */
  lemma MatchIgnoresCase(link: Link, other: Link, term: string)
    requires ToLower(link.title) == ToLower(other.title)
    requires ToLower(link.category) == ToLower(other.category)
    requires ToLower(link.url) == ToLower(other.url)
    ensures Matches(link, term) == Matches(other, term)
  {
  }

  /** The search side of case-insensitivity: the term carries no upper-case letter, whatever was typed. */
  lemma SearchTermIgnoresCase(input: string)
    ensures SearchTerm(ToLower(input)) == SearchTerm(input)
    ensures forall i :: 0 <= i < |SearchTerm(input)| ==> !('A' <= SearchTerm(input)[i] <= 'Z')
  {
    ToLowerIdempotent(input);
    var lo, hi := TrimIsSlice(ToLower(input));
  }

  /** The search term is already trimmed, and it is empty exactly when the box holds only whitespace. */
  lemma SearchTermShape(input: string)
    ensures Trim(SearchTerm(input)) == SearchTerm(input)
    ensures SearchTerm(input) == [] <==> AllWhitespace(input)
  {
    TrimIdempotent(ToLower(input));
    TrimEmptyIff(ToLower(input));
    forall i | 0 <= i < |input| ensures IsWhitespace(ToLower(input)[i]) == IsWhitespace(input[i]) {
      LowerCharWhitespace(input[i]);
    }
  }

  /** Re-filtering the view with the same search box value changes nothing. */
  lemma {:induction false} ViewIdempotent(links: seq<Link>, input: string)
    ensures View(View(links, input), input) == View(links, input)
  {
    var term := SearchTerm(input);
    if term != [] {
      var p := (l: Link) => Matches(l, term);
      forall i | 0 <= i < |Select(links, p)| ensures p(Select(links, p)[i]) {
        assert Select(links, p)[i] in Select(links, p);
      }
      SelectAll(Select(links, p), p);
    }
  }

  // ---------------------------------------------------------------------------
  // Edit, add, delete, find
  // ---------------------------------------------------------------------------

  /** Some position of `links` holds a record with this id. */
  ghost predicate HasId(links: seq<Link>, id: string)
  {
    exists i :: 0 <= i < |links| && links[i].id == id
  }

  /** No two positions hold records with the same id. */
  ghost predicate UniqueIds(links: seq<Link>)
  {
    forall i, j :: 0 <= i < j < |links| ==> links[i].id != links[j].id
  }

  /** `links.map(l => l.id === id ? updated : l)`. */
  function ReplaceById(links: seq<Link>, id: string, updated: Link): (r: seq<Link>)
    ensures |r| == |links|
    ensures forall i :: 0 <= i < |links| ==> r[i] == if links[i].id == id then updated else links[i]
  {
    if links == [] then []
    else [if links[0].id == id then updated else links[0]] + ReplaceById(links[1..], id, updated)
  }

  /** Replacing records of an id nobody has returns the list unchanged. */
  lemma ReplaceMissingId(links: seq<Link>, id: string, updated: Link)
    requires !HasId(links, id)
    ensures ReplaceById(links, id, updated) == links
  {
  }

  /** Overwriting with a record that keeps the id keeps ids unique, and the record is then present. */
  lemma ReplaceKeepsUniqueIds(links: seq<Link>, id: string, updated: Link)
    requires UniqueIds(links) && updated.id == id
    ensures UniqueIds(ReplaceById(links, id, updated))
    ensures HasId(links, id) ==> updated in ReplaceById(links, id, updated)
    ensures forall i :: 0 <= i < |links| ==> ReplaceById(links, id, updated)[i].id == links[i].id
  {
    var r := ReplaceById(links, id, updated);
    forall i | 0 <= i < |links| ensures r[i].id == links[i].id {
      assert r[i] == if links[i].id == id then updated else links[i];
    }
    if HasId(links, id) {
      var i :| 0 <= i < |links| && links[i].id == id;
      assert r[i] == updated;
    }
  }

  /** `links.filter(l => l.id !== id)`. */
  function RemoveById(links: seq<Link>, id: string): (r: seq<Link>)
    ensures |r| <= |links|
  {
    Select(links, (l: Link) => l.id != id)
  }

  /**
   Deletion keeps, in order, exactly the records with another id, and no
   record with the deleted id is left.
   */
  lemma RemoveByIdSpec(links: seq<Link>, id: string) returns (idx: seq<int>)
    ensures Embeds(RemoveById(links, id), links, idx)
    ensures forall i :: 0 <= i < |links| ==> (links[i].id != id <==> i in idx)
    ensures !HasId(RemoveById(links, id), id)
  {
    idx := SelectPositions(links, (l: Link) => l.id != id);
    var r := RemoveById(links, id);
    forall i | 0 <= i < |r| ensures r[i].id != id {
      assert r[i] in r;
    }
  }

  /** Deleting an id nobody has returns the list unchanged. */
  lemma RemoveMissingId(links: seq<Link>, id: string)
    requires !HasId(links, id)
    ensures RemoveById(links, id) == links
  {
    SelectAll(links, (l: Link) => l.id != id);
  }

  /** With unique ids, deleting a present id removes exactly one record and keeps ids unique. */
  lemma {:induction false} RemoveUniqueId(links: seq<Link>, id: string)
    requires UniqueIds(links) && HasId(links, id)
    ensures |RemoveById(links, id)| == |links| - 1
    ensures UniqueIds(RemoveById(links, id))
  {
    var p := (l: Link) => l.id != id;
    var idx := SelectPositions(links, p);
    var r := Select(links, p);
    if links[0].id == id {
      assert !HasId(links[1..], id);
      RemoveMissingId(links[1..], id);
    } else {
      assert HasId(links[1..], id);
      RemoveUniqueId(links[1..], id);
    }
    forall i, j | 0 <= i < j < |r| ensures r[i].id != r[j].id {
      assert idx[i] < idx[j];
    }
  }

  /** Position `i` holds the first record with this id. */
  ghost predicate FirstWithId(links: seq<Link>, id: string, i: int)
  {
    0 <= i < |links| && links[i].id == id && forall j :: 0 <= j < i ==> links[j].id != id
  }

  /** `links.find(l => l.id === id)`: the first record with that id, if any. */
  function FindById(links: seq<Link>, id: string): (r: Option<Link>)
    ensures r.None? <==> !HasId(links, id)
    ensures r.Some? ==> exists i :: FirstWithId(links, id, i) && links[i] == r.value
  {
    if links == [] then None
    else if links[0].id == id then
      assert FirstWithId(links, id, 0);
      Some(links[0])
    else
      var r := FindById(links[1..], id);
      if r.Some? then
        assert forall i :: FirstWithId(links[1..], id, i) ==> FirstWithId(links, id, i + 1);
        r
      else
        r
  }

  // ---------------------------------------------------------------------------
  // How edits to the full list show through the filtered view
  // ---------------------------------------------------------------------------

  /** Appending a record adds it at the end of the view exactly when it is visible. */
  lemma ViewAppend(links: seq<Link>, link: Link, input: string)
    ensures View(links + [link], input) ==
      View(links, input) + (if SearchTerm(input) == [] || Matches(link, SearchTerm(input)) then [link] else [])
  {
    var term := SearchTerm(input);
    if term != [] {
      SelectAppend(links, [link], (l: Link) => Matches(l, term));
    }
  }

  /** Deleting from the full list and re-filtering is deleting from the view. */
  lemma ViewRemove(links: seq<Link>, id: string, input: string)
    ensures View(RemoveById(links, id), input) == RemoveById(View(links, input), id)
  {
    var term := SearchTerm(input);
    if term != [] {
      SelectCommute(links, (l: Link) => l.id != id, (l: Link) => Matches(l, term));
    }
  }
}
