/** The entry page of image management. The first of the parameters
    `album`, `image` and `mode=gallery` that is present decides what is
    shown; without any of them a Sone's albums are shown. */
module ImageBrowserPage {
  import opened Wrappers
  import opened Numbers
  import opened Data
  import opened Web
  import Ordering

  /** The four mutually exclusive views; each sets its own `…Requested` flag. */
  datatype View =
    | AlbumRequested(album: Option<Album>, pageParameter: Option<string>)
    | ImageRequested(image: Option<Image>)
    | GalleryRequested(albums: seq<Album>, pageSize: int, pageIndex: int)
    | SoneRequested(sone: Sone)

  /** `sortedBy(Album::getTitle)`. */
  predicate TitleOrder(a: Album, b: Album) {
    Ordering.LexLessOrEqual(a.title, b.title)
  }

  lemma TitleOrderIsTotalPreorder()
    ensures Ordering.TotalPreorder(TitleOrder)
  {
    forall a: Album, b: Album
      ensures TitleOrder(a, b) || TitleOrder(b, a)
    {
      Ordering.LexTotal(a.title, b.title);
    }
    forall a: Album, b: Album, c: Album | TitleOrder(a, b) && TitleOrder(b, c)
      ensures TitleOrder(a, c)
    {
      Ordering.LexTransitive(a.title, b.title, c.title);
    }
  }

  function AlbumsOf(store: Store, sone: Sone): seq<Album> {
    if sone.id in store.soneAlbums then store.soneAlbums[sone.id] else []
  }

  /** `flatMap(Sone::allAlbums)`: the albums of every Sone, Sone by Sone. */
  function AllAlbums(store: Store, sones: seq<Sone>): (r: seq<Album>)
    ensures forall a :: a in r <==> exists i :: 0 <= i < |sones| && a in AlbumsOf(store, sones[i])
    decreases |sones|
  {
    if |sones| == 0 then []
    else
      assert forall i :: 0 < i < |sones| ==> sones[i] == sones[1..][i - 1];
      AlbumsOf(store, sones[0]) + AllAlbums(store, sones[1..])
  }

  /** `filterNot(Album::isEmpty)`. */
  function KeepNonEmpty(albums: seq<Album>): (r: seq<Album>)
    ensures forall a :: a in r <==> a in albums && !a.isEmpty
    decreases |albums|
  {
    if |albums| == 0 then []
    else
      (if albums[0].isEmpty then [] else [albums[0]]) + KeepNonEmpty(albums[1..])
  }

  /** The filter works piecewise, so it keeps the order of the albums it keeps. */
  lemma {:induction false} KeepNonEmptyAppend(a: seq<Album>, b: seq<Album>)
    ensures KeepNonEmpty(a + b) == KeepNonEmpty(a) + KeepNonEmpty(b)
    decreases |a|
  {
    if |a| > 0 {
      assert a + b == [a[0]] + (a[1..] + b);
      assert a == [a[0]] + a[1..];
      KeepNonEmptyCons(a[0], a[1..] + b);
      KeepNonEmptyCons(a[0], a[1..]);
      KeepNonEmptyAppend(a[1..], b);
    } else {
      assert a + b == b;
    }
  }

  /** The filter keeps every non-empty album as often as it is listed and no empty one. */
  lemma {:induction false} KeepNonEmptyCounts(albums: seq<Album>, a: Album)
    ensures multiset(KeepNonEmpty(albums))[a] == if a.isEmpty then 0 else multiset(albums)[a]
    decreases |albums|
  {
    if |albums| > 0 {
      assert albums == [albums[0]] + albums[1..];
      KeepNonEmptyCounts(albums[1..], a);
    }
  }

  lemma KeepNonEmptyCons(x: Album, rest: seq<Album>)
    ensures KeepNonEmpty([x] + rest) == (if x.isEmpty then [] else [x]) + KeepNonEmpty(rest)
  {
    assert ([x] + rest)[1..] == rest;
  }

  /** The gallery's albums before sorting: the non-empty albums of all Sones. */
  function NonEmptyAlbums(store: Store, sones: seq<Sone>): (r: seq<Album>)
    ensures forall a :: a in r <==> !a.isEmpty && exists i :: 0 <= i < |sones| && a in AlbumsOf(store, sones[i])
  {
    KeepNonEmpty(AllAlbums(store, sones))
  }

  /** Filtering all albums at once is filtering Sone by Sone and joining the results. */
  lemma {:induction false} NonEmptyAlbumsSoneBySone(store: Store, sones: seq<Sone>)
    requires |sones| > 0
    ensures NonEmptyAlbums(store, sones) == KeepNonEmpty(AlbumsOf(store, sones[0])) + NonEmptyAlbums(store, sones[1..])
  {
    KeepNonEmptyAppend(AlbumsOf(store, sones[0]), AllAlbums(store, sones[1..]));
  }

  /** `handleRequest`; `sones` is the core's Sones in iteration order. */
  function HandleRequest(store: Store, sones: seq<Sone>, currentSone: Sone, imagesPerPage: int, request: Request): (r: View)
    // an album parameter wins
    ensures "album" in request.params ==>
      r == AlbumRequested(Lookup(store.albums, request.params["album"]), Parameter(request, "page"))
    ensures r.AlbumRequested? <==> "album" in request.params
    // then an image parameter
    ensures "album" !in request.params && "image" in request.params ==>
      r == ImageRequested(Lookup(store.images, request.params["image"]))
    ensures r.ImageRequested? <==> "album" !in request.params && "image" in request.params
    // then the gallery: every non-empty album of every Sone, ordered by title
    ensures r.GalleryRequested? <==> "album" !in request.params && "image" !in request.params && Parameter(request, "mode") == Some("gallery")
    ensures r.GalleryRequested? ==>
      && (forall a :: a in r.albums <==> !a.isEmpty && exists i :: 0 <= i < |sones| && a in AlbumsOf(store, sones[i]))
      && Ordering.SortedBy(TitleOrder, r.albums)
      && r.pageSize == imagesPerPage
      && r.pageIndex == PageIndex(Parameter(request, "page"))
    // otherwise the requested Sone, or the current one when it is unknown
    ensures r.SoneRequested? <==> "album" !in request.params && "image" !in request.params && Parameter(request, "mode") != Some("gallery")
    ensures r.SoneRequested? ==>
      r.sone == (if GetParam(request, "sone") in store.sones then store.sones[GetParam(request, "sone")] else currentSone)
  {
    if "album" in request.params then
      AlbumRequested(Lookup(store.albums, request.params["album"]), Parameter(request, "page"))
    else if "image" in request.params then
      ImageRequested(Lookup(store.images, request.params["image"]))
    else if Parameter(request, "mode") == Some("gallery") then
      var albums := NonEmptyAlbums(store, sones);
      var sorted := Ordering.Sort(TitleOrder, albums);
      TitleOrderIsTotalPreorder();
      Ordering.SortIsSorted(TitleOrder, albums);
      assert forall a :: a in albums <==> a in multiset(albums);
      assert forall a :: a in sorted <==> a in multiset(sorted);
      GalleryRequested(sorted, imagesPerPage, PageIndex(Parameter(request, "page")))
    else
      SoneRequested(Lookup(store.sones, GetParam(request, "sone")).GetOr(currentSone))
  }

  /** Albums with the same title keep the order of the Sones and of each
      Sone's album list, and every non-empty album appears as often as it
      is listed. */
  lemma GalleryIsStableSortOfNonEmptyAlbums(store: Store, sones: seq<Sone>, currentSone: Sone, imagesPerPage: int, request: Request, key: Album)
    requires "album" !in request.params && "image" !in request.params && Parameter(request, "mode") == Some("gallery")
    ensures var r := HandleRequest(store, sones, currentSone, imagesPerPage, request);
            && multiset(r.albums) == multiset(NonEmptyAlbums(store, sones))
            && Ordering.Ties(TitleOrder, r.albums, key) == Ordering.Ties(TitleOrder, NonEmptyAlbums(store, sones), key)
  {
    TitleOrderIsTotalPreorder();
    Ordering.SortIsStable(TitleOrder, NonEmptyAlbums(store, sones), key);
  }
}
