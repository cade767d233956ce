/** Worked inputs of the slide-path sanitiser, each proved from the general lemmas. */
module SanitizerExamples {
  import opened Wrappers
  import opened JsText
  import opened UriEncoding
  import opened PathSanitizer

  lemma SingleEntry(s: string)
    requires Trim(s) != []
    ensures Survivors([Str(s)]) == [Trim(s)]
  {
    SurvivorsStep([], Str(s));
    assert [] + [Str(s)] == [Str(s)];
  }

  /** A missing or empty list gives just the blank image. */
  lemma NoFiles()
    ensures ComputeSlides(None) == [BlankImg]
    ensures ComputeSlides(Some([])) == [BlankImg]
  {
    assert Items(None) == [] && Items(Some([])) == [];
  }

  /** A list of whitespace-only strings and non-strings (like `["  ", null]`) gives just the blank image. */
  lemma BlankFiles(s: string)
    requires AllSpace(s)
    ensures ComputeSlides(Some([Str(s), Null])) == [BlankImg]
  {
    var xs := [Str(s), Null];
    TrimBlank(s);
    assert !Usable(xs[0]) && !Usable(xs[1]);
    NothingUsable(Some(xs));
  }

  lemma TwoEntries(s: string, t: string)
    requires Trim(s) != []
    ensures Survivors([Str(s), Str(t)]) == Keep([Trim(s)], Str(t))
  {
    SingleEntry(s);
    SurvivorsStep([Str(s)], Str(t));
    assert [Str(s)] + [Str(t)] == [Str(s), Str(t)];
  }

  /**
   * Two spellings of one name that differ only in the case of ASCII letters
   * give one slide, from the first spelling.
   */
  lemma CaseVariants(s: string, t: string)
    requires Trim(s) != [] && |Trim(t)| == |Trim(s)|
    requires forall i :: 0 <= i < |Trim(s)| ==> SameUpToCase(Trim(s)[i], Trim(t)[i])
    ensures PathsOf(Some([Str(s), Str(t)])) == [Emit(Trim(s))]
  {
    ToLowerSame(Trim(s), Trim(t));
    TwoEntries(s, t);
    assert ToLower(Trim(s)) in KeysOf([Trim(s)]);
  }

  /** "a.jpg" starts with none of `/`, `http:`, `https:` or `data:`. */
  lemma PlainRelativeName()
    ensures !LooksAbsolute("a.jpg")
  {
    var s := "a.jpg";
    assert !StartsWithNoCase(s, "http:") && !StartsWithNoCase(s, "https:") by {
      assert ToLower(s[..5])[0] == LowerChar(s[0]) == 'a';
      assert ToLower("http:")[0] == 'h' && ToLower("https:")[0] == 'h';
    }
    assert s[0] != '/' && s[0] != 'd';
  }

  /** "a.jpg" is emitted as "/a.jpg": the prefix is added and nothing needs escaping. */
  lemma PlainRelativeEmit()
    ensures Emit("a.jpg") == "/a.jpg"
  {
    PlainRelativeName();
    var u := "/a.jpg";
    forall i | 0 <= i < |u| ensures IsUnescaped(u[i]) {
      assert u[i] == '/' || u[i] == '.' || IsAlphaNum(u[i]);
    }
    EncodeKeepsPrefix(u, []);
    assert u + [] == u && "/" + "a.jpg" == u;
  }

  /** `["a.jpg", "A.JPG"]` gives the single slide "/a.jpg". */
  lemma CaseVariantsExample()
    ensures PathsOf(Some([Str("a.jpg"), Str("A.JPG")])) == ["/a.jpg"]
  {
    var s, t := "a.jpg", "A.JPG";
    assert Trim(s) == s && Trim(t) == t by {
      TrimPadding([], s, []);
      TrimPadding([], t, []);
      assert [] + s + [] == s && [] + t + [] == t;
    }
    CaseVariants(s, t);
    PlainRelativeEmit();
  }

  /** A space is escaped as "%20" wherever it stands. */
  lemma SpaceEscaped(a: string, b: string)
    ensures EncodeURI(a + " " + b) == EncodeURI(a) + "%20" + EncodeURI(b)
  {
    EncodeAppend(a + " ", b);
    EncodeAppend(a, " ");
    SpaceEncoding();
  }

  /** "my photo.jpg" is relative: it gets the '/' prefix. */
  lemma SpacedNameRelative()
    ensures !LooksAbsolute("my photo.jpg")
  {
    var t := "my photo.jpg";
    assert t[0] == 'm';
  }

  /** The two words around the space need no escaping. */
  lemma SpacedNameWords()
    ensures EncodeURI("my") == "my" && EncodeURI("photo.jpg") == "photo.jpg"
  {
    var a, b := "my", "photo.jpg";
    forall i | 0 <= i < |a| ensures IsUnescaped(a[i]) {
      assert IsAlphaNum(a[i]);
    }
    forall i | 0 <= i < |b| ensures IsUnescaped(b[i]) {
      assert b[i] == '.' || IsAlphaNum(b[i]);
    }
  }

  /** "my photo.jpg" is emitted as "/my%20photo.jpg": the prefix is added and the space escaped. */
  lemma SpacedNameEmit()
    ensures Emit("my photo.jpg") == "/my%20photo.jpg"
  {
    var a, b := "my", "photo.jpg";
    var t := a + " " + b;
    assert t == "my photo.jpg";
    assert "/" + (a + "%20" + b) == "/my%20photo.jpg";
    SpacedNameRelative();
    SpacedNameWords();
    SpaceEscaped(a, b);
    assert EncodeURI(t) == a + "%20" + b;
  }

  /** An absolute entry that needs no escaping (a root path, an http URL, a data URI) comes out unchanged. */
  lemma AbsoluteUnchanged(t: string)
    requires Trim(t) == t && t != [] && LooksAbsolute(t) && AllUnescaped(t)
    ensures PathsOf(Some([Str(t)])) == [t]
  {
    SingleEntry(t);
  }

  /** Putting '/' before a trimmed name leaves it trimmed. */
  lemma RootedTrimmed(t: string)
    requires Trim(t) == t && t != []
    ensures Trim("/" + t) == "/" + t
  {
    var u := "/" + t;
    assert IsTrimmed(u) by {
      assert IsTrimmed(t);
      assert u[0] == '/' && u[|u| - 1] == t[|t| - 1];
    }
    TrimPadding([], u, []);
    assert [] + u + [] == u;
  }

  lemma RelativeAndRooted(t: string)
    requires Trim(t) == t && t != []
    ensures Survivors([Str(t), Str("/" + t)]) == [t, "/" + t]
  {
    var u := "/" + t;
    RootedTrimmed(t);
    assert ToLower(u) !in KeysOf([t]) by {
      assert KeysOf([t]) == {ToLower(t)};
      assert |ToLower(u)| != |ToLower(t)|;
    }
    TwoEntries(t, u);
  }

  lemma SameEmit(t: string)
    requires !LooksAbsolute(t) && EncodeURI(t) == t
    ensures Emit(t) == Emit("/" + t) == "/" + t
  {
    assert LooksAbsolute("/" + t);
    EncodeKeepsPrefix("/", t);
    EmitForm(t);
  }

  /**
   * Keys are unique, but paths need not be: a relative name `t` and the root
   * path "/" + `t` have different keys and both come out as "/" + `t`.
   */
  lemma DuplicatePaths(t: string)
    requires Trim(t) == t && t != [] && !LooksAbsolute(t) && EncodeURI(t) == t
    ensures PathsOf(Some([Str(t), Str("/" + t)])) == ["/" + t, "/" + t]
  {
    var u := "/" + t;
    var xs := [Str(t), Str(u)];
    assert PathsOf(Some(xs)) == EmitAll([t, u]) by {
      RelativeAndRooted(t);
      assert Items(Some(xs)) == xs;
    }
    assert EmitAll([t, u]) == [Emit(t), Emit(u)];
    SameEmit(t);
  }
}
