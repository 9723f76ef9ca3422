/** App.tsx: the application's state and its event handlers. Each handler
    runs as one atomic step; the hosted model, `JSON.parse`, the clock and
    Unicode lower-casing are parameters. */
module App {
  import opened Wrappers
  import opened Sequences
  import opened Strings
  import opened Types
  import opened GeminiService

  /** The most places a day trip can hold. */
  const MaxSelected: nat := 5

  const SelectionLimitAlert: string := "You can only select up to 5 places for a day trip!"
  const SearchFailedAlert: string :=
    "Failed to find places. Please ensure you have set a valid API KEY in the code environment."

  /** `!!selection.find(p => p.id === id)`: a place with this id is selected. */
  predicate IsSelected(selection: seq<Place>, id: string) {
    exists i :: 0 <= i < |selection| && selection[i].id == id
  }

  /** The test of `filter(p => p.id !== id)`. */
  function OtherThan(id: string): Place -> bool {
    (p: Place) => p.id != id
  }

  function IdOf(p: Place): string {
    p.id
  }

  /** No two selected places share an id. */
  predicate DistinctIds(selection: seq<Place>) {
    DistinctBy(selection, IdOf)
  }

  /** What the selection is allowed to be between two events. */
  predicate SelectionOk(selection: seq<Place>) {
    |selection| <= MaxSelected && DistinctIds(selection)
  }

  /** The selection after a card's toggle: a selected place is removed
      (every entry with its id), an unselected one is appended unless five
      places are already selected, in which case nothing changes. */
  function NextSelection(selection: seq<Place>, place: Place): seq<Place> {
    if IsSelected(selection, place.id) then Filter(selection, OtherThan(place.id))
    else if |selection| >= MaxSelected then selection
    else selection + [place]
  }

  /** Toggling a selected place removes it and keeps every other selected
      place, in order. */
  lemma ToggleRemoves(a: seq<Place>, x: Place, b: seq<Place>, place: Place)
    requires DistinctIds(a + [x] + b) && x.id == place.id
    ensures NextSelection(a + [x] + b, place) == a + b
    ensures !IsSelected(NextSelection(a + [x] + b, place), place.id)
  {
    var s := a + [x] + b;
    assert s[|a|] == x;
    forall i | 0 <= i < |a|
      ensures OtherThan(place.id)(a[i])
    {
      assert s[i] == a[i] && IdOf(s[i]) != IdOf(s[|a|]);
    }
    forall i | 0 <= i < |b|
      ensures OtherThan(place.id)(b[i])
    {
      assert s[|a| + 1 + i] == b[i] && IdOf(s[|a|]) != IdOf(s[|a| + 1 + i]);
    }
    FilterDropsOne(a, x, b, OtherThan(place.id));
  }

  /** Toggling an unselected place appends it when fewer than five are
      selected and refuses otherwise; toggling it again restores the
      selection. */
  lemma ToggleAddsOrRefuses(selection: seq<Place>, place: Place)
    requires !IsSelected(selection, place.id)
    ensures |selection| < MaxSelected ==> NextSelection(selection, place) == selection + [place]
    ensures |selection| >= MaxSelected ==> NextSelection(selection, place) == selection
    ensures |selection| < MaxSelected ==> NextSelection(NextSelection(selection, place), place) == selection
  {
    if |selection| < MaxSelected {
      var once := selection + [place];
      assert once[|selection|] == place;
      FilterDropsOne(selection, place, [], OtherThan(place.id));
      assert selection + [place] + [] == once && selection + [] == selection;
    }
  }

  /** Toggling keeps the selection within five places with distinct ids. */
  lemma ToggleKeepsSelectionOk(selection: seq<Place>, place: Place)
    requires SelectionOk(selection)
    ensures SelectionOk(NextSelection(selection, place))
  {
    if IsSelected(selection, place.id) {
      FilterKeepsDistinctBy(selection, OtherThan(place.id), IdOf);
    } else if |selection| < MaxSelected {
      var next := selection + [place];
      assert forall i :: 0 <= i < |selection| ==> next[i] == selection[i];
      assert next[|selection|] == place;
    }
  }

  /** The state the handlers share; a `useState` hook is a field. */
  class AppState {
    var viewMode: ViewMode
    var destination: string
    var isLoading: bool
    var places: seq<Place>
    var selectedPlaces: seq<Place>
    var itinerary: Option<Itinerary>
    var groundingChunks: seq<GroundingChunk>
    var userLocation: Option<Coordinates>

    /** Between events: nothing is loading, the selection is within bounds,
        and the itinerary view has an itinerary to show. */
    ghost predicate Valid()
      reads this
    {
      !isLoading && SelectionOk(selectedPlaces) && (viewMode == ITINERARY ==> itinerary.Some?)
    }

    /** The initial values of the hooks. */
    constructor ()
      ensures Valid()
      ensures viewMode == HOME && destination == "" && !isLoading
      ensures places == [] && selectedPlaces == [] && itinerary == None
      ensures groundingChunks == [] && userLocation == None
    {
      viewMode := HOME;
      destination := "";
      isLoading := false;
      places := [];
      selectedPlaces := [];
      itinerary := None;
      groundingChunks := [];
      userLocation := None;
    }

    /** The geolocation success callback records the position. */
    method ReceiveLocation(location: Coordinates)
      requires Valid()
      modifies this`userLocation
      ensures Valid()
      ensures userLocation == Some(location)
    {
      userLocation := Some(location);
    }

    /** `handleSearch(dest, interests)`. The destination is recorded in any
        case; a successful discovery replaces the places and citations,
        clears the selection and shows the results; a failed one raises the
        alert it returns and changes nothing else. */
    method HandleSearch(dest: string, interests: seq<string>,
                        generate: DiscoveryRequest -> DiscoveryResponse,
                        lower: string -> string, clock: nat -> nat)
      returns (alert: Option<string>)
      requires Valid()
      modifies this`isLoading, this`destination, this`places, this`groundingChunks,
               this`viewMode, this`selectedPlaces
      ensures Valid()
      ensures destination == dest
      ensures var response := generate(DiscoveryRequest(dest, InterestString(interests), userLocation));
        if response.DiscoveryFailed? then
          && alert == Some(SearchFailedAlert)
          && places == old(places) && groundingChunks == old(groundingChunks)
          && viewMode == old(viewMode) && selectedPlaces == old(selectedPlaces)
        else
          && alert == None
          && viewMode == RESULTS && selectedPlaces == []
          && groundingChunks == response.chunks.GetOr([])
          && IsParseOf(places, response.text.GetOr(""), groundingChunks, lower, clock)
    {
      isLoading := true;
      destination := dest;
      var result := DiscoverHiddenGems(dest, interests, userLocation, generate, lower, clock);
      match result {
        case Success(found) =>
          places := found.places;
          groundingChunks := found.chunks;
          viewMode := RESULTS;
          selectedPlaces := [];
          alert := None;
        case Failure(_) =>
          alert := Some(SearchFailedAlert);
      }
      isLoading := false;
    }

    /** `togglePlaceSelection(place)`: the selection becomes
        `NextSelection`, and the limit alert is raised exactly when an
        unselected place is refused. */
    method TogglePlaceSelection(place: Place) returns (alert: Option<string>)
      requires Valid()
      modifies this`selectedPlaces
      ensures Valid()
      ensures selectedPlaces == NextSelection(old(selectedPlaces), place)
      ensures alert.Some? <==> !IsSelected(old(selectedPlaces), place.id) && |old(selectedPlaces)| >= MaxSelected
      ensures alert.Some? ==> alert.value == SelectionLimitAlert
    {
      ToggleKeepsSelectionOk(selectedPlaces, place);
      var found := FindIndex(selectedPlaces, (p: Place) => p.id == place.id);
      if found.Some? {
        selectedPlaces := Filter(selectedPlaces, OtherThan(place.id));
        alert := None;
      } else if |selectedPlaces| >= MaxSelected {
        alert := Some(SelectionLimitAlert);
      } else {
        selectedPlaces := selectedPlaces + [place];
        alert := None;
      }
    }

    /** `handleCreateItinerary()`: nothing happens without a selection;
        otherwise the generated itinerary (which never fails) is stored and
        shown. While the build button is disabled a click changes nothing;
        while it is enabled a click shows the itinerary view. */
    method HandleCreateItinerary(generate: ItineraryRequest -> ItineraryResponse,
                                 parseJson: string -> Option<Itinerary>)
      requires Valid()
      modifies this`isLoading, this`itinerary, this`viewMode
      ensures Valid()
      ensures old(selectedPlaces) == [] ==> itinerary == old(itinerary) && viewMode == old(viewMode)
      ensures old(selectedPlaces) != [] ==>
        && itinerary == Some(GenerateItinerary(destination, selectedPlaces, generate, parseJson))
        && viewMode == ITINERARY
      ensures old(BuildItineraryDisabled()) ==> itinerary == old(itinerary) && viewMode == old(viewMode)
      ensures !old(BuildItineraryDisabled()) ==> viewMode == ITINERARY && itinerary.Some?
    {
      if |selectedPlaces| == 0 {
        return;
      }
      isLoading := true;
      var result := GenerateItinerary(destination, selectedPlaces, generate, parseJson);
      itinerary := Some(result);
      viewMode := ITINERARY;
      isLoading := false;
    }

    /** The itinerary view's back button: return to the results. */
    method GoBack()
      requires Valid()
      modifies this`viewMode
      ensures Valid() && viewMode == RESULTS
    {
      viewMode := RESULTS;
    }

    /** The logo: return to the search form; nothing else is reset. */
    method ShowHome()
      requires Valid()
      modifies this`viewMode
      ensures Valid() && viewMode == HOME
    {
      viewMode := HOME;
    }

    /** The "Build Itinerary" button is disabled without a selection or
        while a request is running. */
    function BuildItineraryDisabled(): (r: bool)
      reads this
      ensures r <==> selectedPlaces == [] || isLoading
    {
      |selectedPlaces| == 0 || isLoading
    }
  }
}
