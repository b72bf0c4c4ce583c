/** The in-memory Collection aggregate of the app package: images are held
    by reference, and the two image edits work on `images` in place through
    the receiver. */
module AppCollection {
  import opened Errors

  class Image {
    var path: string
    var collectionId: int
    var savedAt: int

    /** The literal `&Image{Path: p, CollectionId: id}`; SavedAt keeps the zero time. */
    constructor (path: string, collectionId: int)
      ensures this.path == path && this.collectionId == collectionId && savedAt == 0
    {
      this.path := path;
      this.collectionId := collectionId;
      savedAt := 0;
    }
  }

  /** A string variable that is not an image's Path field, such as a field
      of a decoded request body. */
  class StringCell {
    var value: string

    constructor (value: string)
      ensures this.value == value
    {
      this.value := value;
    }
  }

  /** A Go `*string`: the address of some image's Path field, or of any
      other string variable. Two pointers are equal only when they are the
      same address. */
  datatype StringPtr = PathOf(image: Image) | CellOf(cell: StringCell) {
    function Target(): object
    {
      match this
      case PathOf(i) => i
      case CellOf(c) => c
    }
  }

  /** `*p`. */
  function Deref(p: StringPtr): string
    reads p.Target()
  {
    match p
    case PathOf(i) => i.path
    case CellOf(c) => c.value
  }

  /** CollectionFilter: each present field is an equality predicate. */
  datatype CollectionFilter = CollectionFilter(
    id: Option<int>, name: Option<string>, authorId: Option<int>, limit: nat, offset: nat)

  /** CollectionPatch: a present field replaces the collection's value. */
  datatype CollectionPatch = CollectionPatch(name: Option<string>, description: Option<string>, poster: Option<string>)

  class Collection {
    var id: int
    var authorId: int
    var name: string
    var description: string
    var poster: string
    var images: seq<Image>
    var createdAt: int
    var updatedAt: int

    /** A `&Collection{...}` literal with every field given. */
    constructor (id: int, authorId: int, name: string, description: string, poster: string,
                 images: seq<Image>, createdAt: int, updatedAt: int)
      ensures this.id == id && this.authorId == authorId && this.name == name
      ensures this.description == description && this.poster == poster && this.images == images
      ensures this.createdAt == createdAt && this.updatedAt == updatedAt
    {
      this.id, this.authorId, this.name := id, authorId, name;
      this.description, this.poster, this.images := description, poster, images;
      this.createdAt, this.updatedAt := createdAt, updatedAt;
    }

    /** Collection(): a new collection with ID, AuthorID, Name and Poster;
        Description, Images and the timestamps are left at their zero values. */
    method Project() returns (r: Collection)
      ensures fresh(r)
      ensures r.id == id && r.authorId == authorId && r.name == name && r.poster == poster
      ensures r.description == "" && r.images == [] && r.createdAt == 0 && r.updatedAt == 0
    {
      r := new Collection(id, authorId, name, "", poster, [], 0, 0);
    }

    /** CollectionWithImages(): the same projection sharing this collection's
        image list (the same Image objects, not copies). */
    method ProjectWithImages() returns (r: Collection)
      ensures fresh(r)
      ensures r.id == id && r.authorId == authorId && r.name == name && r.poster == poster
      ensures r.description == "" && r.images == images && r.createdAt == 0 && r.updatedAt == 0
    {
      r := new Collection(id, authorId, name, "", poster, images, 0, 0);
    }

    /** SaveImageToCollection: when `imgPath` is not the address of a member
        image's path, append one new image holding `*imgPath` and this
        collection's id, and return this collection; otherwise fail with
        ErrImageAlreadySaved and change nothing. */
    method SaveImageToCollection(imgPath: StringPtr) returns (r: Collection?, err: Option<Error>)
      modifies this`images
      ensures old(Saved(images, imgPath)) ==>
        r == null && err == Some(App(ImageAlreadySaved)) && images == old(images)
      ensures !old(Saved(images, imgPath)) ==>
        && r == this && err == None
        && |images| == |old(images)| + 1 && images[..|old(images)|] == old(images)
        && fresh(images[|old(images)|])
        && images[|old(images)|].path == Deref(imgPath)
        && images[|old(images)|].collectionId == id
        && images[|old(images)|].savedAt == 0
    {
      var saved := IsSaved(this, imgPath);
      if !saved {
        var image := new Image(Deref(imgPath), id);
        images := images + [image];
        return this, None;
      }
      return null, Some(App(ImageAlreadySaved));
    }

    /** The save evidently intended: refuse `imgPath` when an image with
        that path text is already in the list, whatever variable the text is
        read from; otherwise append as SaveImageToCollection does. A list
        with distinct paths keeps them distinct. */
    method SaveImageIfAbsent(imgPath: StringPtr) returns (r: Collection?, err: Option<Error>)
      modifies this`images
      ensures old(HasPath(images, Deref(imgPath))) ==>
        r == null && err == Some(App(ImageAlreadySaved)) && images == old(images)
      ensures !old(HasPath(images, Deref(imgPath))) ==>
        && r == this && err == None
        && |images| == |old(images)| + 1 && images[..|old(images)|] == old(images)
        && fresh(images[|old(images)|])
        && images[|old(images)|].path == old(Deref(imgPath))
        && images[|old(images)|].collectionId == id
      ensures old(DistinctPaths(images)) ==> DistinctPaths(images)
    {
      var saved := IsSavedByValue(this, imgPath);
      if !saved {
        var image := new Image(Deref(imgPath), id);
        images := images + [image];
        return this, None;
      }
      return null, Some(App(ImageAlreadySaved));
    }

    /** DeleteImageFromCollection as written: on the first image whose path
        equals `imgPath` it calls slices.Delete(images, i, i), which removes
        the empty range [i, i), and returns this collection; with no such
        image it fails with ErrImageNotSaved. Either way the list is as before. */
    method DeleteImageFromCollection(imgPath: string) returns (r: Collection?, err: Option<Error>)
      modifies this`images
      ensures images == old(images)
      ensures err.None? <==> exists k :: 0 <= k < |images| && images[k].path == imgPath
      ensures err.None? ==> r == this
      ensures err.Some? ==> r == null && err == Some(App(ImageNotSaved))
    {
      var i := 0;
      while i < |images|
        invariant 0 <= i <= |images|
        invariant images == old(images)
        invariant forall k :: 0 <= k < i ==> images[k].path != imgPath
      {
        if imgPath == images[i].path {
          SlicesDeleteEmptyRange(images, i);
          images := SlicesDelete(images, i, i);
          return this, None;
        }
        i := i + 1;
      }
      return null, Some(App(ImageNotSaved));
    }

    /** The deletion evidently intended: slices.Delete(images, i, i+1)
        removes exactly the first image whose path equals `imgPath`. */
    method RemoveFirstImageWithPath(imgPath: string) returns (r: Collection?, err: Option<Error>)
      modifies this`images
      ensures err.None? <==> exists k :: 0 <= k < |old(images)| && old(images)[k].path == imgPath
      ensures err.None? ==> r == this && exists k ::
        && 0 <= k < |old(images)| && old(images)[k].path == imgPath
        && (forall j :: 0 <= j < k ==> old(images)[j].path != imgPath)
        && images == old(images)[..k] + old(images)[k + 1..]
      ensures err.Some? ==> r == null && err == Some(App(ImageNotSaved)) && images == old(images)
    {
      var i := 0;
      while i < |images|
        invariant 0 <= i <= |images|
        invariant images == old(images)
        invariant forall k :: 0 <= k < i ==> images[k].path != imgPath
      {
        if imgPath == images[i].path {
          images := SlicesDelete(images, i, i + 1);
          return this, None;
        }
        i := i + 1;
      }
      return null, Some(App(ImageNotSaved));
    }
  }

  /** `imgPath` is the address of the Path field of one of `images`. */
  predicate Saved(images: seq<Image>, imgPath: StringPtr)
  {
    exists k :: 0 <= k < |images| && imgPath == PathOf(images[k])
  }

  /** isSaved as written: compares addresses (`imgPath == &i.Path`), not
      strings. An empty list is first replaced by CollectionWithImages(),
      which has the same empty list. */
  method IsSaved(collection: Collection, imgPath: StringPtr) returns (saved: bool)
    ensures saved <==> Saved(collection.images, imgPath)
    ensures collection.images == [] ==> !saved
  {
    var c := collection;
    if |c.images| == 0 {
      c := c.ProjectWithImages();
    }
    var images := c.images;
    var k := 0;
    while k < |images|
      invariant 0 <= k <= |images|
      invariant images == collection.images
      invariant forall j :: 0 <= j < k ==> imgPath != PathOf(images[j])
    {
      if imgPath == PathOf(images[k]) {
        return true;
      }
      k := k + 1;
    }
    return false;
  }

  /** Some image in the list has path text `path`. */
  predicate HasPath(images: seq<Image>, path: string)
    reads images
  {
    exists k :: 0 <= k < |images| && images[k].path == path
  }

  /** No two images in the list have the same path text. */
  predicate DistinctPaths(images: seq<Image>)
    reads images
  {
    forall i, j :: 0 <= i < j < |images| ==> images[i].path != images[j].path
  }

  /** The membership test evidently intended: some image's path equals the
      string `imgPath` points to. */
  method IsSavedByValue(collection: Collection, imgPath: StringPtr) returns (saved: bool)
    ensures saved <==> HasPath(collection.images, Deref(imgPath))
  {
    var images := collection.images;
    var value := Deref(imgPath);
    var k := 0;
    while k < |images|
      invariant 0 <= k <= |images|
      invariant forall j :: 0 <= j < k ==> images[j].path != value
    {
      if images[k].path == value {
        return true;
      }
      k := k + 1;
    }
    return false;
  }

  /** A pointer to any string other than an image's own Path field, such as
      the handler's decoded request field, is never "saved", whatever its text. */
  lemma CellNeverSaved(images: seq<Image>, cell: StringCell)
    ensures !Saved(images, CellOf(cell))
  {
  }

  /** slices.Delete(s, i, j): removes s[i:j]; Go panics unless 0 <= i <= j <= len(s). */
  function SlicesDelete<T>(s: seq<T>, i: nat, j: nat): (r: seq<T>)
    requires i <= j <= |s|
    ensures |r| == |s| - (j - i)
    ensures forall k :: 0 <= k < i ==> r[k] == s[k]
    ensures forall k :: i <= k < |r| ==> r[k] == s[k + (j - i)]
  {
    s[..i] + s[j..]
  }

  /** Deleting the empty range [i, i) leaves the slice as it was. */
  lemma SlicesDeleteEmptyRange<T>(s: seq<T>, i: nat)
    requires i <= |s|
    ensures SlicesDelete(s, i, i) == s
  {
    assert s[..i] + s[i..] == s;
  }

  /** The handler's request field is a StringCell: saving it twice into the
      same collection appends two images with the same path, and deleting by
      that path afterwards leaves both in place. */
  method SaveTwiceThenDelete(path: string) returns (count: nat, same: bool)
    ensures count == 2 && same
  {
    var c := new Collection(1, 7, "Favorites", "", "", [], 0, 0);
    var input := new StringCell(path);
    var r1, e1 := c.SaveImageToCollection(CellOf(input));
    var r2, e2 := c.SaveImageToCollection(CellOf(input));
    var r3, e3 := c.DeleteImageFromCollection(path);
    count := |c.images|;
    same := c.images[0].path == c.images[1].path;
  }

  /** The same two saves with the intended test: the second is refused, and
      deleting by the path then removes the one image. */
  method SaveTwiceByValue(path: string) returns (count: nat, second: Option<Error>, left: nat)
    ensures count == 1 && second == Some(App(ImageAlreadySaved)) && left == 0
  {
    var c := new Collection(1, 7, "Favorites", "", "", [], 0, 0);
    var input := new StringCell(path);
    var r1, e1 := c.SaveImageIfAbsent(CellOf(input));
    var r2, e2 := c.SaveImageIfAbsent(CellOf(input));
    count, second := |c.images|, e2;
    var r3, e3 := c.RemoveFirstImageWithPath(path);
    left := |c.images|;
  }
}
