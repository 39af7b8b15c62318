/** The circular list of loaded images, and the names they are found by. */
module ImageList {

  // ---------------------------------------------------------------------------
  // Names
  // ---------------------------------------------------------------------------

  function Lower(c: char): char {
    if 'A' <= c <= 'Z' then c - 'A' + 'a' else c
  }

  /** The same name, ignoring case. */
  predicate SameName(a: string, b: string) {
    |a| == |b| && forall i :: 0 <= i < |a| ==> Lower(a[i]) == Lower(b[i])
  }

  /** Equal but for case: each of the 26 letters is equal to its capital, any other character to itself alone. */
  lemma EqualButForCase(c: char, d: char)
    ensures Lower(c) == Lower(d) <==>
              c == d || ('A' <= c <= 'Z' && d as int == c as int + 32) || ('A' <= d <= 'Z' && c as int == d as int + 32)
  {
  }

  lemma SameNameMeans(a: string, b: string)
    ensures SameName(a, b) <==>
              |a| == |b| && forall i :: 0 <= i < |a| ==>
                a[i] == b[i] || ('A' <= a[i] <= 'Z' && b[i] as int == a[i] as int + 32)
                || ('A' <= b[i] <= 'Z' && a[i] as int == b[i] as int + 32)
  {
    hide Lower;
    if |a| == |b| {
      forall i | 0 <= i < |a| { EqualButForCase(a[i], b[i]); }
    }
  }

  /** A string of bytes without the one that ends strings. */
  predicate IsCString(s: string) {
    forall i :: 0 <= i < |s| ==> '\0' < s[i] <= '\U{FF}'
  }

  /** The loader's characters are signed. */
  function Signed(c: char): int {
    if c as int < 128 then c as int else c as int - 256
  }

  /** The difference of two characters: of unsigned ones where a string ends, else of signed ones. */
  function Difference(a: char, b: char): int {
    if a == '\0' || b == '\0' then a as int - b as int else Signed(a) - Signed(b)
  }

  /** From 128 on a character counts as 256 less, unless one of the two ends its string. */
  lemma DifferenceIs(a: char, b: char)
    requires a as int < 256 && b as int < 256
    ensures a as int < 128 && b as int < 128 ==> Difference(a, b) == a as int - b as int
    ensures b == '\0' ==> Difference(a, b) == a as int
    ensures a == '\0' ==> Difference(a, b) == -(b as int)
    ensures a as int >= 128 && 0 < b as int < 128 ==> Difference(a, b) == a as int - b as int - 256
    ensures 0 < a as int < 128 && b as int >= 128 ==> Difference(a, b) == a as int - b as int + 256
    ensures a as int >= 128 && b as int >= 128 ==> Difference(a, b) == a as int - b as int
  {
  }

  /** Character `i`, or the terminator. */
  function At(s: string, i: nat): char
    requires i <= |s|
  {
    if i < |s| then s[i] else '\0'
  }

  /** The strings agree up to character `i`, and there `a` ends or they differ. */
  ghost predicate DifferAt(a: string, b: string, i: nat) {
    && i <= |a| && i <= |b| && (forall j :: 0 <= j < i ==> Lower(a[j]) == Lower(b[j]))
    && (i == |a| || Lower(At(a, i)) != Lower(At(b, i)))
  }

  /** stricmp: zero for equal names, or else the difference of the first characters that differ. */
  method Stricmp(a: string, b: string) returns (r: int)
    requires IsCString(a) && IsCString(b)
    ensures r == 0 <==> SameName(a, b)
    ensures r == 0 <==>
              |a| == |b| && forall i :: 0 <= i < |a| ==>
                a[i] == b[i] || ('A' <= a[i] <= 'Z' && b[i] as int == a[i] as int + 32)
                || ('A' <= b[i] <= 'Z' && a[i] as int == b[i] as int + 32)
    ensures exists i :: DifferAt(a, b, i) && r == Difference(Lower(At(a, i)), Lower(At(b, i)))
  {
    var i := 0;
    while At(a, i) != '\0' && Lower(At(a, i)) == Lower(At(b, i))
      invariant 0 <= i <= |a| && i <= |b|
      invariant forall j :: 0 <= j < i ==> Lower(a[j]) == Lower(b[j])
      decreases |a| - i
    {
      i := i + 1;
    }
    assert DifferAt(a, b, i);
    SameNameMeans(a, b);
    r := Difference(Lower(At(a, i)), Lower(At(b, i)));
  }

  // ---------------------------------------------------------------------------
  // The list
  // ---------------------------------------------------------------------------

  /** A loaded image with its link; the list's head is a link without an image. */
  class Image {
    const name: string
    /** The file the image was loaded from. */
    ghost const path: string
    var next: Image?
    var prev: Image?

    constructor (name: string, ghost path: string)
      ensures this.name == name && this.path == path
    {
      this.name := name;
      this.path := path;
      next, prev := null, null;
    }
  }

  ghost predicate Distinct(s: seq<Image>) {
    forall i, j :: 0 <= i < j < |s| ==> s[i] != s[j]
  }

  /** Every image of `ring` points to the next one, and that one back. */
  ghost predicate Linked(ring: seq<Image>)
    reads ring
  {
    forall i, j {:trigger ring[i], ring[j]} :: 0 <= i && j == i + 1 < |ring| ==>
        ring[i].next == ring[j] && ring[j].prev == ring[i]
  }

  class LoadedImages {
    const head: Image
    ghost var images: seq<Image>

    ghost function Ring(): seq<Image>
      reads this
    {
      [head] + images + [head]
    }

    ghost predicate Valid()
      reads this, head, images
    {
      head !in images && Distinct(images) && Linked(Ring())
    }

    constructor ()
      ensures Valid() && images == [] && fresh(head)
    {
      head := new Image("", "");
      images := [];
      new;
      head.next, head.prev := head, head;
    }

    /** __list_add, between the `k`-th link and the next. */
    method AddBetween(image: Image, prev: Image, next: Image, ghost k: nat)
      requires Valid() && image !in Ring()
      requires k <= |images| && prev == Ring()[k] && next == Ring()[k + 1]
      modifies this`images, image`next, image`prev, prev`next, next`prev
      ensures Valid() && images == old(images[..k] + [image] + images[k..])
    {
      ghost var ring := Ring();
      next.prev := image;
      image.next := next;
      image.prev := prev;
      prev.next := image;
      images := images[..k] + [image] + images[k..];
      ghost var after := Ring();
      assert forall i :: 0 <= i < |after| ==>
          after[i] == if i <= k then ring[i] else if i == k + 1 then image else ring[i - 1];
      forall i, j | 0 <= i && j == i + 1 < |after|
        ensures after[i].next == after[j] && after[j].prev == after[i]
      {
        assert i < k ==> old(ring[i].next == ring[j] && ring[j].prev == ring[i]);
        assert i > k + 1 ==> old(ring[i - 1].next == ring[i] && ring[i].prev == ring[i - 1]);
      }
    }

    /** list_add. */
    method Add(image: Image)
      requires Valid() && image !in Ring()
      modifies this`images, image, head, images
      ensures Valid() && images == [image] + old(images)
    {
      assert head == Ring()[0] && head.next == Ring()[1];
      AddBetween(image, head, head.next, 0);
      assert images == [image] + old(images);
    }

    /** list_del. */
    method Remove(image: Image, ghost k: nat)
      requires Valid() && k < |images| && images[k] == image
      modifies this`images, head, images
      ensures Valid() && images == old(images[..k] + images[k + 1..])
      ensures image.next == null && image.prev == null
    {
      ghost var ring := Ring();
      assert ring[k + 1] == image && image.prev == ring[k] && image.next == ring[k + 2];
      var prev, next := image.prev, image.next;
      next.prev := prev;
      prev.next := next;
      image.next := null;
      image.prev := null;
      images := images[..k] + images[k + 1..];
      ghost var after := Ring();
      assert forall i :: 0 <= i < |after| ==> after[i] == if i <= k then ring[i] else ring[i + 1];
      forall i, j | 0 <= i && j == i + 1 < |after|
        ensures after[i].next == after[j] && after[j].prev == after[i]
      {
        assert i < k ==> old(ring[i].next == ring[j] && ring[j].prev == ring[i]);
        assert i > k ==> old(ring[j].next == ring[j + 1] && ring[j + 1].prev == ring[j]);
      }
    }

    /** loader_isImageLoaded. */
    method IsImageLoaded(name: string) returns (image: Image?)
      requires Valid() && IsCString(name) && forall i :: 0 <= i < |images| ==> IsCString(images[i].name)
      ensures image != null ==> image in images && SameName(name, image.name)
      ensures image == null ==> forall i :: 0 <= i < |images| ==> !SameName(name, images[i].name)
    {
      ghost var k := 0;
      assert Ring()[0] == head;
      image := head.next;
      while image != head
        invariant 0 <= k <= |images| && image == Ring()[k + 1]
        invariant forall i :: 0 <= i < k ==> !SameName(name, images[i].name)
        decreases |images| - k
      {
        assert image == images[k] && Ring()[k + 2] == image.next;
        var r := Stricmp(name, image.name);
        if r == 0 {
          return;
        }
        image := image.next;
        k := k + 1;
      }
      image := null;
    }

    /** loader_getExecutable: the image at the tail. */
    method GetExecutable() returns (image: Image?)
      requires Valid()
      ensures image == if images == [] then null else images[|images| - 1]
    {
      assert Ring()[0] == head && Ring()[|images| + 1] == head && Ring()[|images|].next == head;
      if head.next != head {
        assert images != [];
        image := head.prev;
      } else {
        assert Ring()[1] == head;
        image := null;
      }
    }
  }
}
