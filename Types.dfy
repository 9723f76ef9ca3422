/** The records of types.ts. Optional members (`field?: T`) are `Option`s. */
module Types {
  import opened Wrappers

  /** One recommended place. `id` is unique within one discovery result only. */
  datatype Place = Place(
    id: string,
    name: string,
    description: string,
    category: string,
    reason: string,
    location: Option<string>,
    mapLink: Option<string>,
    rating: Option<string>,
    imageUrl: Option<string>,
    tags: seq<string>)

  datatype WebSource = WebSource(uri: string, title: string)

  datatype ReviewSnippet = ReviewSnippet(content: string)

  datatype PlaceAnswerSource = PlaceAnswerSource(reviewSnippets: Option<seq<ReviewSnippet>>)

  datatype MapsSource = MapsSource(
    uri: string,
    title: string,
    placeAnswerSources: Option<seq<PlaceAnswerSource>>)

  /** A citation returned beside a generation: a web page, a map place, or both. */
  datatype GroundingChunk = GroundingChunk(web: Option<WebSource>, maps: Option<MapsSource>)

  datatype ViewMode = HOME | RESULTS | ITINERARY

  datatype ItineraryItem = ItineraryItem(
    time: string,
    activity: string,
    description: string,
    placeId: Option<string>)

  datatype Itinerary = Itinerary(title: string, items: seq<ItineraryItem>)
}
