/**
  The texture catalog (`TextureState`): built once at start-up by scanning the `textures`
  directory, then only read. The file system and the asynchronous texture upload are not
  modelled; what they report is the input here: a directory listing whose entries say
  whether they are regular files, their extension and stem, and how loading them went.
  Textures are opaque values of the type parameter `Tex`.
 */
module Textures {
  import opened Options
  import opened Lookup

  /** What `load_texture(...).await` reported for an entry. */
  datatype LoadOutcome<Tex> = Loaded(texture: Tex) | LoadFailed

  /** One item of the `read_dir` iterator: an I/O error, or an entry with what the loader asks of its path. */
  datatype DirEntry<Tex> =
    | Unreadable
    | Entry(isFile: bool, extension: Option<string>, stem: Option<string>, outcome: LoadOutcome<Tex>)

  /** The `textures` directory: absent, unreadable, or its entries in the order the file system lists them. */
  datatype Listing<Tex> = Missing | ReadFailed | Listed(entries: seq<DirEntry<Tex>>)

  /** The catalog: the readiness flag and the loaded textures, keyed by file stem, in load order. */
  datatype TextureState<Tex> = TextureState(isReady: bool, textures: seq<(string, Tex)>)

  /** A regular file whose extension is exactly `png`, `jpg` or `jpeg` (case-sensitive): the loader tries it. */
  predicate IsImage<Tex>(e: DirEntry<Tex>) {
    && e.Entry?
    && e.isFile
    && e.extension.Some?
    && (e.extension.value == "png" || e.extension.value == "jpg" || e.extension.value == "jpeg")
  }

  /** The catalog name of an entry: its file stem, or "" when it has none (`unwrap_or_default`). */
  function StemName<Tex>(e: DirEntry<Tex>): string
    requires e.Entry?
  {
    match e.stem
    case Some(s) => s
    case None => ""
  }

  /** An image the loader tried and that loaded. */
  predicate Succeeds<Tex>(e: DirEntry<Tex>) {
    IsImage(e) && e.outcome.Loaded?
  }

  /** An image the loader tried and that failed to load. */
  predicate Fails<Tex>(e: DirEntry<Tex>) {
    IsImage(e) && e.outcome.LoadFailed?
  }

  /** What the catalog gains from one entry. */
  function Contribution<Tex>(e: DirEntry<Tex>): seq<(string, Tex)> {
    if Succeeds(e) then [(StemName(e), e.outcome.texture)] else []
  }

  /** The textures a scan of `entries` loads, in listing order. */
  function LoadedTextures<Tex>(entries: seq<DirEntry<Tex>>): seq<(string, Tex)> {
    if entries == [] then []
    else LoadedTextures(entries[..|entries| - 1]) + Contribution(entries[|entries| - 1])
  }

  /** Some image among `entries` failed to load. */
  ghost predicate AnyFailure<Tex>(entries: seq<DirEntry<Tex>>) {
    exists i :: 0 <= i < |entries| && Fails(entries[i])
  }

  /**
    `TextureState::new`: a missing or unreadable directory gives an empty catalog that is not
    ready; otherwise every image that loads is kept in listing order, a failure clears the
    readiness flag without stopping the scan, and the catalog is ready only when nothing failed
    and something loaded.
   */
  method LoadTextureState<Tex>(listing: Listing<Tex>) returns (state: TextureState<Tex>)
    ensures !listing.Listed? ==> state == TextureState(false, [])
    ensures listing.Listed? ==> state.textures == LoadedTextures(listing.entries)
    ensures listing.Listed? ==> (state.isReady <==> !AnyFailure(listing.entries) && |state.textures| > 0)
  {
    match listing
    case Missing =>
      return TextureState(false, []);
    case ReadFailed =>
      return TextureState(false, []);
    case Listed(entries) =>
      var textures: seq<(string, Tex)> := [];
      var isReady := true;
      var i := 0;
      while i < |entries|
        invariant 0 <= i <= |entries|
        invariant textures == LoadedTextures(entries[..i])
        invariant isReady <==> !AnyFailure(entries[..i])
      {
        var e := entries[i];
        if e.Entry? && e.isFile && e.extension.Some? {
          var ext := e.extension.value;
          if ext == "png" || ext == "jpg" || ext == "jpeg" {
            match e.outcome
            case Loaded(texture) =>
              var name := match e.stem case Some(s) => s case None => "";
              textures := textures + [(name, texture)];
            case LoadFailed =>
              isReady := false;
          }
        }
        assert entries[..i + 1][..i] == entries[..i];
        i := i + 1;
      }
      assert entries[..i] == entries;
      return TextureState(isReady && |textures| > 0, textures);
  }

  /** Scanning two listings one after the other loads the textures of each, in that order. */
  lemma {:induction false} LoadedTexturesAppend<Tex>(a: seq<DirEntry<Tex>>, b: seq<DirEntry<Tex>>)
    ensures LoadedTextures(a + b) == LoadedTextures(a) + LoadedTextures(b)
    decreases |b|
  {
    if b == [] {
      assert a + b == a;
    } else {
      var b' := b[..|b| - 1];
      assert (a + b)[..|a + b| - 1] == a + b';
      LoadedTexturesAppend(a, b');
    }
  }

  /** Each loaded texture comes from an image entry that loaded, under that entry's stem. */
  lemma {:induction false} LoadedTexturesFromImages<Tex>(entries: seq<DirEntry<Tex>>, k: nat)
    requires k < |LoadedTextures(entries)|
    ensures exists i :: 0 <= i < |entries| && Succeeds(entries[i])
                        && LoadedTextures(entries)[k] == (StemName(entries[i]), entries[i].outcome.texture)
    decreases |entries|
  {
    var n := |entries| - 1;
    var front := entries[..n];
    if k < |LoadedTextures(front)| {
      LoadedTexturesFromImages(front, k);
      var i :| 0 <= i < |front| && Succeeds(front[i])
               && LoadedTextures(front)[k] == (StemName(front[i]), front[i].outcome.texture);
      assert entries[i] == front[i];
    } else {
      assert LoadedTextures(entries)[k] == Contribution(entries[n])[0];
    }
  }

  /** Every image entry that loaded is in the catalog, under its stem. */
  lemma {:induction false} ImagesAreLoaded<Tex>(entries: seq<DirEntry<Tex>>, i: nat)
    requires i < |entries| && Succeeds(entries[i])
    ensures (StemName(entries[i]), entries[i].outcome.texture) in LoadedTextures(entries)
  {
    var e := entries[i];
    assert entries == entries[..i] + [e] + entries[i + 1..];
    LoadedTexturesAppend(entries[..i] + [e], entries[i + 1..]);
    LoadedTexturesAppend(entries[..i], [e]);
    assert [e][..0] == [];
    assert LoadedTextures([e]) == [(StemName(e), e.outcome.texture)];
  }

  /** The catalog is nonempty exactly when some image loaded. */
  lemma {:induction false} LoadedTexturesNonempty<Tex>(entries: seq<DirEntry<Tex>>)
    ensures |LoadedTextures(entries)| > 0 <==> exists i :: 0 <= i < |entries| && Succeeds(entries[i])
  {
    if |LoadedTextures(entries)| > 0 {
      LoadedTexturesFromImages(entries, 0);
    }
    if i :| 0 <= i < |entries| && Succeeds(entries[i]) {
      ImagesAreLoaded(entries, i);
    }
  }

  /** Catalog names in catalog order. */
  function TextureNames<Tex>(textures: seq<(string, Tex)>): (names: seq<string>)
    ensures |names| == |textures|
    ensures forall i :: 0 <= i < |textures| ==> names[i] == textures[i].0
  {
    if textures == [] then [] else [textures[0].0] + TextureNames(textures[1..])
  }

  /**
    `TextureState::get_texture`: the texture of the first catalog entry named exactly `name`,
    or None when no entry has that name. Readiness is not consulted.
   */
  function GetTexture<Tex>(state: TextureState<Tex>, name: string): (r: Option<Tex>)
    ensures r.None? <==> forall i :: 0 <= i < |state.textures| ==> state.textures[i].0 != name
    ensures r.Some? ==> exists i :: 0 <= i < |state.textures| && state.textures[i] == (name, r.value)
                                    && forall j :: 0 <= j < i ==> state.textures[j].0 != name
  {
    var names := TextureNames(state.textures);
    match FirstIndex(names, name)
    case None => None
    case Some(i) =>
      assert forall j :: 0 <= j < i ==> names[..i][j] == names[j];
      Some(state.textures[i].1)
  }

  /**
    A directory holding one image that loads and one corrupt image gives a catalog that is
    not ready and holds exactly the image that loaded, named after its stem.
   */
  lemma OneGoodOneCorrupt<Tex>(good: Tex)
    ensures var entries := [Entry(true, Some("png"), Some("Rose_Flower"), Loaded(good)),
                            Entry(true, Some("png"), Some("Dragon_Tooth"), LoadFailed)];
            LoadedTextures(entries) == [("Rose_Flower", good)] && AnyFailure(entries)
  {
    var entries := [Entry(true, Some("png"), Some("Rose_Flower"), Loaded(good)),
                    Entry(true, Some("png"), Some("Dragon_Tooth"), LoadFailed)];
    assert entries[..1][..0] == [];
    assert LoadedTextures(entries[..1]) == [("Rose_Flower", good)];
    assert Contribution(entries[1]) == [];
    assert Fails(entries[1]);
  }

  /** The same directory run through the loader: not ready, holding only the image that loaded. */
  method LoadOneGoodOneCorrupt<Tex>(good: Tex) returns (state: TextureState<Tex>)
    ensures !state.isReady && state.textures == [("Rose_Flower", good)]
  {
    var entries := [Entry(true, Some("png"), Some("Rose_Flower"), Loaded(good)),
                    Entry(true, Some("png"), Some("Dragon_Tooth"), LoadFailed)];
    OneGoodOneCorrupt(good);
    state := LoadTextureState(Listed(entries));
  }
}
