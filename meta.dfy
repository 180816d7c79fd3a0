/** The page metadata of src/lib/meta.ts: the Open Graph and Twitter card
    objects, left empty on a character's own page. */
module Meta {
  import opened Strings

  const Site := "https://ddal.dekok.app"
  const SiteName := "Adventurers League Log"
  const Description := "An online log sheet made for Adventurers League characters"
  const ImageUrl := "https://ddal.dekok.app/images/barovia-gate.jpg"
  const CharactersPrefix := "/characters/"

  datatype Image = Image(url: string, width: int, height: int)
  datatype OpenGraph = OpenGraph(title: string, description: string, url: string, siteName: string,
                                 images: seq<Image>, locale: string, kind: string)
  datatype Twitter = Twitter(card: string, title: string, description: string, creator: string,
                             creatorId: string, images: seq<string>, url: string)

  /** The result of `appMeta`; an empty object `{}` is `None`. */
  datatype AppMeta = AppMeta(title: string, openGraph: Option<OpenGraph>, twitter: Option<Twitter>)

  predicate NoSlash(s: string) { forall i :: 0 <= i < |s| ==> s[i] != '/' }

  /** `/^\/characters\/[^\/]+\/?$/i.test(path)`: the prefix in any case, one
      non-empty segment without a slash, and at most one trailing slash. */
  predicate IsCharacterPage(path: string) {
    && |path| > |CharactersPrefix|
    && EqualIgnoringCase(path[..|CharactersPrefix|], CharactersPrefix)
    && var rest := path[|CharactersPrefix|..];
       var segment := if rest[|rest| - 1] == '/' then rest[..|rest| - 1] else rest;
       segment != [] && NoSlash(segment)
  }

  /** Comparing ignoring case splits at any point. */
  lemma EqualIgnoringCaseConcat(path: string, a: string, b: string)
    ensures EqualIgnoringCase(path, a + b) <==>
      |path| == |a| + |b| && EqualIgnoringCase(path[..|a|], a) && EqualIgnoringCase(path[|a|..], b)
  {
    if |path| == |a| + |b| {
      assert forall i :: 0 <= i < |a| ==> path[..|a|][i] == path[i] && (a + b)[i] == a[i];
      assert forall i :: |a| <= i < |path| ==> path[|a|..][i - |a|] == path[i] && (a + b)[i] == b[i - |a|];
    }
  }

  /** A slash is equal ignoring case only to a slash. */
  lemma NoSlashIgnoringCase(x: string, y: string)
    requires EqualIgnoringCase(x, y)
    ensures NoSlash(x) <==> NoSlash(y)
  {
    assert forall i :: 0 <= i < |x| ==> (x[i] == '/' <==> y[i] == '/') by {
      forall i | 0 <= i < |x| ensures x[i] == '/' <==> y[i] == '/' {
        assert SameIgnoringCase(x[i], y[i]);
      }
    }
  }

  /** The character pages are exactly the prefix followed by one segment,
      with or without a trailing slash, all compared ignoring case. */
  lemma CharacterPageIff(path: string)
    ensures IsCharacterPage(path) <==>
      exists segment :: segment != [] && NoSlash(segment)
        && (EqualIgnoringCase(path, CharactersPrefix + segment) || EqualIgnoringCase(path, CharactersPrefix + segment + "/"))
  {
    var n := |CharactersPrefix|;
    if IsCharacterPage(path) {
      var rest := path[n..];
      var segment := if rest[|rest| - 1] == '/' then rest[..|rest| - 1] else rest;
      EqualIgnoringCaseConcat(path, CharactersPrefix, segment);
      EqualIgnoringCaseConcat(path, CharactersPrefix + segment, "/");
      assert EqualIgnoringCase(segment, segment);
      if rest[|rest| - 1] == '/' {
        assert path[..n + |segment|] == path[..n] + segment;
        EqualIgnoringCaseConcat(path[..n + |segment|], CharactersPrefix, segment);
        assert path[..n + |segment|][..n] == path[..n];
        assert path[..n + |segment|][n..] == segment;
      }
    }
    if exists segment :: segment != [] && NoSlash(segment)
        && (EqualIgnoringCase(path, CharactersPrefix + segment) || EqualIgnoringCase(path, CharactersPrefix + segment + "/")) {
      var segment :| segment != [] && NoSlash(segment)
        && (EqualIgnoringCase(path, CharactersPrefix + segment) || EqualIgnoringCase(path, CharactersPrefix + segment + "/"));
      SlashedPage(path, segment);
    }
  }

  lemma SlashedPage(path: string, segment: string)
    requires segment != [] && NoSlash(segment)
    requires EqualIgnoringCase(path, CharactersPrefix + segment) || EqualIgnoringCase(path, CharactersPrefix + segment + "/")
    ensures IsCharacterPage(path)
  {
    var n := |CharactersPrefix|;
    var rest := path[n..];
    if EqualIgnoringCase(path, CharactersPrefix + segment) {
      EqualIgnoringCaseConcat(path, CharactersPrefix, segment);
      NoSlashIgnoringCase(rest, segment);
      assert rest[|rest| - 1] != '/';
    } else {
      assert CharactersPrefix + segment + "/" == CharactersPrefix + (segment + "/");
      EqualIgnoringCaseConcat(path, CharactersPrefix, segment + "/");
      EqualIgnoringCaseConcat(rest, segment, "/");
      assert SameIgnoringCase(rest[|rest| - 1], '/');
      NoSlashIgnoringCase(rest[..|segment|], segment);
      assert rest[..|rest| - 1] == rest[..|segment|];
    }
  }

  /** `appMeta(path, title)`. */
  function AppMetaOf(path: string, title: string): (r: AppMeta)
    ensures r.title == title
  {
    if IsCharacterPage(path) then AppMeta(title, None, None)
    else
      AppMeta(title,
        Some(OpenGraph(SiteName, Description, Site + path, SiteName, [Image(ImageUrl, 800, 600)], "en_US", "website")),
        Some(Twitter("summary_large_image", SiteName, Description, "@sillvvasensei", "1006748654391169029", [ImageUrl], Site + path)))
  }

  /** A character's page has neither card; every other page has both, with
      the page's own address. */
  lemma AppMetaCards(path: string, title: string)
    ensures IsCharacterPage(path) ==> AppMetaOf(path, title).openGraph.None? && AppMetaOf(path, title).twitter.None?
    ensures !IsCharacterPage(path) ==>
      && AppMetaOf(path, title).openGraph.Some? && AppMetaOf(path, title).openGraph.value.url == Site + path
      && AppMetaOf(path, title).twitter.Some? && AppMetaOf(path, title).twitter.value.url == Site + path
  {
  }

  /** Which paths are a character's page. */
  lemma CharacterPageExamples()
    ensures IsCharacterPage("/characters/abc")
    ensures IsCharacterPage("/Characters/abc/")
    ensures !IsCharacterPage("/characters/")
    ensures !IsCharacterPage("/characters/a/b")
    ensures !IsCharacterPage("/characters/a//")
  {
    assert "/characters/abc"[..12] == CharactersPrefix;
    assert "/characters/abc"[12..] == "abc";
    assert "/Characters/abc/"[..12] == "/Characters/";
    assert "/Characters/abc/"[12..] == "abc/";
    assert "abc/"[..3] == "abc";
    assert "/characters/a/b"[12..] == "a/b";
    assert "a/b"[1] == '/';
    assert "/characters/a//"[12..] == "a//";
    assert "a//"[..2] == "a/";
    assert "a/"[1] == '/';
  }
}
