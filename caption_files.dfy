/**
 * What the two caption scripts share: the key a caption is stored under in
 * the YAML data file, and the order they visit a folder's images in
 * (`sorted` over paths of one directory, which is the order of the names).
 */
module CaptionFiles {

  import opened Ordering

  /** `f"/assets/img/{folder_name}/{img_path.name}"`. */
  function CaptionKey(folder: string, name: string): string
  {
    "/assets/img/" + folder + "/" + name
  }

  /** Within one folder, different images get different keys. */
  lemma CaptionKeyInjective(folder: string, a: string, b: string)
    requires CaptionKey(folder, a) == CaptionKey(folder, b)
    ensures a == b
  {
    var prefix := "/assets/img/" + folder + "/";
    assert CaptionKey(folder, a) == prefix + a && CaptionKey(folder, b) == prefix + b;
    assert (prefix + a)[|prefix|..] == a;
    assert (prefix + b)[|prefix|..] == b;
  }

  /** The sort key of `sorted(...)` over the names of one directory: the name itself. */
  function Name(s: string): string
  {
    s
  }

  /** `sorted(...)` of the paths of one directory, by name. */
  function SortNames(names: seq<string>): (r: seq<string>)
    ensures SortedBy(r, Name)
    ensures multiset(r) == multiset(names) && |r| == |names|
  {
    SortBy(names, Name)
  }

  /** The names in order, duplicate-free when the listing is. */
  lemma SortNamesDistinct(names: seq<string>)
    requires NoDups(names)
    ensures NoDups(SortNames(names))
    ensures forall n :: n in SortNames(names) <==> n in names
  {
    var r := SortNames(names);
    PermutationNoDups(names, r);
    assert forall n :: n in r <==> n in multiset(r);
    assert forall n :: n in names <==> n in multiset(names);
  }

  /** The elements of `names` that satisfy `keep`, in order. */
  function Select(names: seq<string>, keep: string -> bool): (r: seq<string>)
    ensures forall n :: n in r <==> n in names && keep(n)
    ensures NoDups(names) ==> NoDups(r)
  {
    if names == [] then []
    else
      var rest := Select(names[1..], keep);
      assert forall n :: n in names <==> n == names[0] || n in names[1..] by {
        assert names == [names[0]] + names[1..];
      }
      if keep(names[0]) then [names[0]] + rest else rest
  }

  /** The keys the captions of `names` are stored under. */
  function KeysOf(folder: string, names: seq<string>): set<string>
  {
    set name | name in names :: CaptionKey(folder, name)
  }

  /** Storing one more caption adds its key; an image not yet visited has a fresh key. */
  lemma KeysOfSnoc(folder: string, done: seq<string>, name: string)
    ensures KeysOf(folder, done + [name]) == KeysOf(folder, done) + {CaptionKey(folder, name)}
    ensures name !in done ==> CaptionKey(folder, name) !in KeysOf(folder, done)
  {
    if name !in done && CaptionKey(folder, name) in KeysOf(folder, done) {
      var other :| other in done && CaptionKey(folder, other) == CaptionKey(folder, name);
      CaptionKeyInjective(folder, other, name);
    }
  }

  /** Storing the caption of `name` leaves the captions of the other images alone. */
  lemma StoreKeepsOthers(folder: string, done: seq<string>, name: string,
                         captions: map<string, string>, next: map<string, string>, caption: string)
    requires next == captions[CaptionKey(folder, name) := caption]
    requires name !in done
    ensures forall n :: n in done && CaptionKey(folder, n) in captions ==>
              CaptionKey(folder, n) in next && next[CaptionKey(folder, n)] == captions[CaptionKey(folder, n)]
  {
    forall n | n in done && CaptionKey(folder, n) in captions
      ensures CaptionKey(folder, n) in next && next[CaptionKey(folder, n)] == captions[CaptionKey(folder, n)]
    {
      if CaptionKey(folder, n) == CaptionKey(folder, name) {
        CaptionKeyInjective(folder, n, name);
      }
    }
  }

  /** The keys depend only on which names there are. */
  lemma KeysOfSameNames(folder: string, a: seq<string>, b: seq<string>)
    requires forall n :: n in a <==> n in b
    ensures KeysOf(folder, a) == KeysOf(folder, b)
  {
  }

  /** `captions` holds the caption of each of `done` under its key, and nothing else. */
  predicate Stored(folder: string, done: seq<string>, captions: map<string, string>, captionOf: string -> string)
  {
    && captions.Keys == KeysOf(folder, done)
    && (forall n :: n in done ==>
          CaptionKey(folder, n) in captions && captions[CaptionKey(folder, n)] == captionOf(n))
    && |captions| == |done|
  }

  /** Storing the caption of an image not yet visited keeps `Stored`. */
  lemma StoreStep(folder: string, done: seq<string>, name: string,
                  captions: map<string, string>, captionOf: string -> string)
    requires Stored(folder, done, captions, captionOf) && name !in done
    ensures Stored(folder, done + [name], captions[CaptionKey(folder, name) := captionOf(name)], captionOf)
  {
    var next := captions[CaptionKey(folder, name) := captionOf(name)];
    StoreStepKeys(folder, done, name, captions, next, captionOf(name));
    StoreKeepsOthers(folder, done, name, captions, next, captionOf(name));
    forall n | n in done + [name]
      ensures CaptionKey(folder, n) in next && next[CaptionKey(folder, n)] == captionOf(n)
    {
      if n != name { assert n in done; }
    }
  }

  lemma StoreStepKeys(folder: string, done: seq<string>, name: string,
                      captions: map<string, string>, next: map<string, string>, caption: string)
    requires captions.Keys == KeysOf(folder, done) && |captions| == |done| && name !in done
    requires next == captions[CaptionKey(folder, name) := caption]
    ensures next.Keys == KeysOf(folder, done + [name]) && |next| == |done + [name]|
  {
    KeysOfSnoc(folder, done, name);
    assert CaptionKey(folder, name) !in captions;
  }

  /**
   * The loop both scripts run over a folder's images: caption each in turn
   * and store the caption under the image's key. `captionOf` is what the
   * loop body computes for one image.
   */
  method StoreCaptions(images: seq<string>, folder: string, captionOf: string -> string)
    returns (captions: map<string, string>)
    requires NoDups(images)
    ensures captions.Keys == KeysOf(folder, images)
    ensures forall n :: n in images ==>
              CaptionKey(folder, n) in captions && captions[CaptionKey(folder, n)] == captionOf(n)
    ensures |captions| == |images|
  {
    captions := map[];
    var i := 0;
    while i < |images|
      invariant i <= |images|
      invariant Stored(folder, images[..i], captions, captionOf)
    {
      var name := images[i];
      assert name !in images[..i];
      StoreStep(folder, images[..i], name, captions, captionOf);
      captions := captions[CaptionKey(folder, name) := captionOf(name)];
      TakeOneMore(images, i);
      i := i + 1;
    }
    assert images[..i] == images;
  }

  lemma TakeOneMore(xs: seq<string>, i: nat)
    requires i < |xs|
    ensures xs[..i + 1] == xs[..i] + [xs[i]]
  {
  }
}
