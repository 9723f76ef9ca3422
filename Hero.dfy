/** components/Hero.tsx: the search form, with its destination field and
    interest toggles. */
module Hero {
  import opened Wrappers
  import opened Sequences
  import opened Strings

  /** The interest ids the form offers, in display order. */
  const InterestIds: seq<string> := ["food", "art", "nature", "history", "music"]

  /** The test of `filter(i => i !== id)`. */
  function Unequal(id: string): string -> bool {
    (i: string) => i != id
  }

  /** The interest list after a toggle: a present id is removed, an absent
      one is appended. */
  function ToggledInterests(prev: seq<string>, id: string): seq<string> {
    if id in prev then Filter(prev, Unequal(id)) else prev + [id]
  }

  /** Toggling a present interest removes it and keeps the others in order. */
  lemma ToggleInterestRemoves(a: seq<string>, id: string, b: seq<string>)
    requires NoDuplicates(a + [id] + b)
    ensures ToggledInterests(a + [id] + b, id) == a + b
    ensures id !in ToggledInterests(a + [id] + b, id)
  {
    var s := a + [id] + b;
    assert s[|a|] == id;
    forall i | 0 <= i < |a|
      ensures Unequal(id)(a[i])
    {
      assert s[i] == a[i];
    }
    forall i | 0 <= i < |b|
      ensures Unequal(id)(b[i])
    {
      assert s[|a| + 1 + i] == b[i];
    }
    FilterDropsOne(a, id, b, Unequal(id));
  }

  /** Toggling an absent interest appends it; toggling it again restores
      the list. */
  lemma ToggleInterestTwice(prev: seq<string>, id: string)
    requires id !in prev
    ensures ToggledInterests(prev, id) == prev + [id]
    ensures ToggledInterests(ToggledInterests(prev, id), id) == prev
  {
    var once := prev + [id];
    assert once[|prev|] == id;
    FilterDropsOne(prev, id, [], Unequal(id));
    assert prev + [id] + [] == once && prev + [] == prev;
  }

  /** Toggling keeps the list free of duplicates, and within the offered
      interests when it was there and the id is one of them. */
  lemma ToggleInterestKeepsSet(prev: seq<string>, id: string)
    requires NoDuplicates(prev)
    ensures NoDuplicates(ToggledInterests(prev, id))
    ensures (forall i :: 0 <= i < |prev| ==> prev[i] in InterestIds) && id in InterestIds ==>
      forall i :: 0 <= i < |ToggledInterests(prev, id)| ==> ToggledInterests(prev, id)[i] in InterestIds
  {
    if id in prev {
      FilterKeepsNoDuplicates(prev, Unequal(id));
    } else {
      var next := prev + [id];
      assert forall i :: 0 <= i < |prev| ==> next[i] == prev[i];
      assert next[|prev|] == id;
    }
  }

  /** The `onSearch` call the form makes. */
  datatype SearchRequest = SearchRequest(destination: string, interests: seq<string>)

  class HeroForm {
    var destination: string
    var selectedInterests: seq<string>

    /** No interest is selected twice. */
    ghost predicate Valid()
      reads this
    {
      NoDuplicates(selectedInterests)
    }

    /** An empty destination and no interests. */
    constructor ()
      ensures Valid() && destination == "" && selectedInterests == []
    {
      destination := "";
      selectedInterests := [];
    }

    /** The input's `onChange`: the field holds exactly what was typed. */
    method SetDestination(value: string)
      requires Valid()
      modifies this`destination
      ensures Valid() && destination == value
    {
      destination := value;
    }

    /** `toggleInterest(id)`. */
    method ToggleInterest(id: string)
      requires Valid()
      modifies this`selectedInterests
      ensures Valid()
      ensures selectedInterests == ToggledInterests(old(selectedInterests), id)
    {
      ToggleInterestKeepsSet(selectedInterests, id);
      if id in selectedInterests {
        selectedInterests := Filter(selectedInterests, Unequal(id));
      } else {
        selectedInterests := selectedInterests + [id];
      }
    }

    /** `handleSubmit`: a search is requested exactly when the destination
        holds a character that is not white space, and it carries the
        destination as typed, untrimmed, with the selected interests. */
    method HandleSubmit() returns (search: Option<SearchRequest>)
      ensures search.Some? <==> !AllWhite(destination)
      ensures search.Some? ==> search.value == SearchRequest(destination, selectedInterests)
    {
      if !IsBlank(destination) {
        search := Some(SearchRequest(destination, selectedInterests));
      } else {
        search := None;
      }
    }

    /** The submit button's `disabled`: while loading, or while the
        destination is blank. */
    function SubmitDisabled(isLoading: bool): (r: bool)
      reads this
      ensures r <==> isLoading || AllWhite(destination)
    {
      isLoading || IsBlank(destination)
    }
  }
}
