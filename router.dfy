/**
 * Hash routing of the site: `isGallery` classifies a location fragment, and
 * `useRoute` keeps the current fragment, reading `#/` for an absent or empty
 * one, initially and after every `hashchange` event. The browser's location
 * is an explicit argument here instead of the ambient `window`.
 */
module Router {
  import opened JsText

  const HomeRoute: string := "#/"
  const GalleryPrefix: string := "#/gallery"

  datatype View = Home | Gallery

  /** What `useRoute` can see of its environment: no `window` at all, or a browser location with its hash. */
  datatype Location = NoWindow | Browser(hash: string)

  /** `isGallery(hash)`: a string that starts with `#/gallery`. */
  predicate IsGallery(hash: JsValue)
    ensures IsGallery(hash) <==> hash.Str? && |hash.s| >= 9 && hash.s[..9] == "#/gallery"
  {
    hash.Str? && StartsWith(hash.s, GalleryPrefix)
  }

  /** The view a route selects. */
  function ViewOf(route: string): (v: View)
    ensures v == Gallery <==> |route| >= 9 && route[..9] == "#/gallery"
  {
    if IsGallery(Str(route)) then Gallery else Home
  }

  /** `hash || '#/'`: the fallback for an empty hash; a route is never empty. */
  function Normalize(hash: string): (r: string)
    ensures r != []
    ensures hash != [] ==> r == hash
    ensures hash == [] ==> r == HomeRoute
  {
    if hash != [] then hash else HomeRoute
  }

  /** The route `useRoute` starts with. */
  function InitialRoute(loc: Location): (r: string)
    ensures r != []
    ensures loc.NoWindow? ==> r == HomeRoute
    ensures loc.Browser? ==> r == Normalize(loc.hash)
  {
    match loc
    case NoWindow => HomeRoute
    case Browser(hash) => Normalize(hash)
  }

  /**
   * The route after the given `hashchange` events, each carrying the hash it
   * leaves behind. Without a `window` no listener is registered, so events
   * change nothing.
   */
  function RouteAfter(loc: Location, changes: seq<string>): (r: string)
    ensures loc.NoWindow? ==> r == HomeRoute
    ensures loc.Browser? && changes == [] ==> r == Normalize(loc.hash)
    ensures loc.Browser? && changes != [] ==> r == Normalize(changes[|changes| - 1])
  {
    if loc.NoWindow? || changes == [] then InitialRoute(loc)
    else Normalize(changes[|changes| - 1])
  }

  /** The route is never empty, and without a window it is the home route. */
  lemma RouteNeverEmpty(loc: Location, changes: seq<string>)
    ensures RouteAfter(loc, changes) != []
    ensures loc.NoWindow? ==> RouteAfter(loc, changes) == HomeRoute
  {
  }

  /** The fallback to `#/` never changes the view: an empty hash and `#/` both show the home page. */
  lemma NormalizeKeepsView(hash: string)
    ensures ViewOf(Normalize(hash)) == ViewOf(hash)
    ensures Normalize(Normalize(hash)) == Normalize(hash)
  {
  }

  /** The view after some navigation depends only on the latest hash. */
  lemma ViewAfter(loc: Location, changes: seq<string>)
    ensures loc.Browser? && changes != [] ==>
      ViewOf(RouteAfter(loc, changes)) == ViewOf(changes[|changes| - 1])
    ensures loc.Browser? && changes == [] ==> ViewOf(RouteAfter(loc, changes)) == ViewOf(loc.hash)
    ensures loc.NoWindow? ==> ViewOf(RouteAfter(loc, changes)) == Home
  {
  }

  /** Any sub-path of the gallery is still the gallery. */
  lemma GallerySubpaths(route: string, suffix: string)
    requires IsGallery(Str(route))
    ensures IsGallery(Str(route + suffix))
  {
  }

  /** `#/gallery` and `#/gallery/foo` are the gallery; `#/`, "" and non-strings are not. */
  lemma GalleryExamples()
    ensures IsGallery(Str("#/gallery")) && IsGallery(Str("#/gallery/foo"))
    ensures !IsGallery(Str("#/")) && !IsGallery(Str(""))
    ensures !IsGallery(Undefined) && !IsGallery(Null) && !IsGallery(Other)
    ensures !IsGallery(Str("#/galler"))
  {
  }
}
