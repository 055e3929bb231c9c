/** The filter instantiated with the program's compiled-in allow-lists, and worked examples. */
module FilterInstances {
  import opened Text
  import opened Manifest
  import opened ManifestFilter

  /** With the compiled-in lists, a package is kept iff its name mentions "MangaDex", and a source iff it is MangaDex in pt-BR. */
  lemma OriginalPredicates(p: Package, s: Source)
    ensures KeepPackage(p, Original) <==> Contains(p.name, "MangaDex")
    ensures KeepSource(s, Original) <==> s.lang == "pt-BR" && s.name == "MangaDex"
  {
    if Contains(p.name, "MangaDex") {
      assert "MangaDex" in Original.wantedPackages;
    }
  }

  /**
   * A MangaDex package with a pt-BR and an English source, next to a package of
   * another name: only the MangaDex package survives, with only its pt-BR source.
   */
  lemma OriginalExample()
    ensures
      var br := Source("MangaDex", "pt-BR", "1", "https://mangadex.org");
      var en := Source("MangaDex", "en", "2", "https://mangadex.org");
      var mangadex := Package("Tachiyomi: MangaDex", "eu.kanade.tachiyomi.extension.all.mangadex",
                              "tachiyomi-all.mangadex-v1.4.apk", "all", 14, "1.4.14", 0, [br, en]);
      var other := Package("Comick", "eu.kanade.tachiyomi.extension.all.comick",
                           "tachiyomi-all.comick-v1.4.apk", "all", 3, "1.4.3", 1, [en]);
      FilterManifest([mangadex, other], Original) == [mangadex.(sources := [br])]
  {
    var br := Source("MangaDex", "pt-BR", "1", "https://mangadex.org");
    var en := Source("MangaDex", "en", "2", "https://mangadex.org");
    var mangadex := Package("Tachiyomi: MangaDex", "eu.kanade.tachiyomi.extension.all.mangadex",
                            "tachiyomi-all.mangadex-v1.4.apk", "all", 14, "1.4.14", 0, [br, en]);
    var other := Package("Comick", "eu.kanade.tachiyomi.extension.all.comick",
                         "tachiyomi-all.comick-v1.4.apk", "all", 3, "1.4.3", 1, [en]);
    KeepsMangaDexName(mangadex);
    DropsShorterName(other);
    assert KeepSource(br, Original) && !KeepSource(en, Original);
    assert [br, en][..1] == [br];
    assert NarrowSources([br, en], Original) == [br];
    assert [mangadex, other][..1] == [mangadex];
    assert FilterManifest([mangadex], Original) == [NarrowPackage(mangadex, Original)] by {
      assert [mangadex][..0] == [];
    }
  }

  lemma KeepsMangaDexName(p: Package)
    requires p.name == "Tachiyomi: MangaDex"
    ensures KeepPackage(p, Original)
  {
    assert OccursAt(p.name, "MangaDex", 11);
    ContainsIffOccurs(p.name, "MangaDex");
    assert "MangaDex" in Original.wantedPackages;
  }

  lemma DropsShorterName(p: Package)
    requires |p.name| < |"MangaDex"|
    ensures !KeepPackage(p, Original)
  {
    if Contains(p.name, "MangaDex") {
      ContainsNoLongerThan(p.name, "MangaDex");
    }
  }

  /**
   * Wanted names ["MangaDex"] and locales ["en"]: "MangaDex EN" is kept with
   * only its MangaDex/en source; the source named "Other" is dropped.
   */
  lemma EnglishExample()
    ensures
      var allow := AllowLists(["MangaDex"], ["en"]);
      var keep := Source("MangaDex", "en", "1", "https://mangadex.org");
      var drop := Source("Other", "en", "2", "https://example.org");
      var p := Package("MangaDex EN", "eu.kanade.tachiyomi.extension.en.mangadex", "en.mangadex.apk",
                       "en", 1, "1.0", 0, [keep, drop]);
      FilterManifest([p], allow) == [p.(sources := [keep])]
  {
    var allow := AllowLists(["MangaDex"], ["en"]);
    var keep := Source("MangaDex", "en", "1", "https://mangadex.org");
    var drop := Source("Other", "en", "2", "https://example.org");
    var p := Package("MangaDex EN", "eu.kanade.tachiyomi.extension.en.mangadex", "en.mangadex.apk",
                     "en", 1, "1.0", 0, [keep, drop]);
    assert IsPrefix("MangaDex", p.name);
    assert KeepPackage(p, allow) by { assert "MangaDex" in allow.wantedPackages; }
    assert !KeepSource(drop, allow);
    assert [keep, drop][..1] == [keep];
    assert NarrowSources([keep, drop], allow) == [keep];
  }

  /** A kept package none of whose sources is wanted is still in the output, with no sources. */
  lemma KeptWithNoSourcesExample()
    ensures
      var en := Source("MangaDex", "en", "2", "https://mangadex.org");
      var p := Package("MangaDex", "eu.kanade.tachiyomi.extension.all.mangadex", "mangadex.apk",
                       "all", 1, "1.0", 0, [en]);
      FilterManifest([p], Original) == [p.(sources := [])]
  {
    var en := Source("MangaDex", "en", "2", "https://mangadex.org");
    var p := Package("MangaDex", "eu.kanade.tachiyomi.extension.all.mangadex", "mangadex.apk",
                     "all", 1, "1.0", 0, [en]);
    OriginalPredicates(p, en);
    ContainsSelfAndEmpty(p.name);
    assert [en][..0] == [];
  }
}
