/**
 * The slide-path sanitiser of the site: `encodePaths` turns a list of
 * candidate image references into trimmed, case-insensitively de-duplicated,
 * root-prefixed and URI-encoded paths, and `computeSlides` falls back to a
 * built-in 1x1 PNG when nothing usable is left.
 *
 * `Survivors` is the specification of the loop in `encodePaths`: the trimmed
 * entries that get emitted, in input order. It is defined on the list read so
 * far, one more entry at a time, exactly as the loop proceeds.
 */
module PathSanitizer {
  import opened Wrappers
  import opened JsText
  import opened UriEncoding

  /** An entry the loop emits unless its key was seen: a string that is not blank after trimming. */
  predicate Usable(x: JsValue)
    ensures Usable(x) <==> x.Str? && !AllSpace(x.s)
  {
    x.Str? && (TrimBlank(x.s); Trim(x.s) != [])
  }

  /** The de-duplication key of a usable entry: trimmed, then lower-cased. */
  function EntryKey(x: JsValue): (k: string)
    requires x.Str?
    ensures |k| == |Trim(x.s)|
    ensures forall i :: 0 <= i < |k| ==> !IsUpper(k[i])
  {
    ToLower(Trim(x.s))
  }

  /**
   * Two entries share a key exactly when their trimmed texts have the same
   * length and differ at most in the case of ASCII letters.
   */
  lemma SameKey(x: JsValue, y: JsValue)
    requires x.Str? && y.Str?
    ensures EntryKey(x) == EntryKey(y) <==>
      && |Trim(x.s)| == |Trim(y.s)|
      && forall i :: 0 <= i < |Trim(x.s)| ==> SameUpToCase(Trim(x.s)[i], Trim(y.s)[i])
  {
    ToLowerSame(Trim(x.s), Trim(y.s));
  }

  function KeysOf(ts: seq<string>): set<string> {
    set t | t in ts :: ToLower(t)
  }

  /** No two entries of `ts` share a key. */
  predicate DistinctKeys(ts: seq<string>) {
    forall i, j :: 0 <= i < j < |ts| ==> ToLower(ts[i]) != ToLower(ts[j])
  }

  lemma KeysOfAppend(ts: seq<string>, t: string)
    ensures KeysOf(ts + [t]) == KeysOf(ts) + {ToLower(t)}
  {
    assert forall u :: u in ts + [t] <==> u in ts || u == t;
  }

  lemma DistinctAppend(ts: seq<string>, t: string)
    requires DistinctKeys(ts) && ToLower(t) !in KeysOf(ts)
    ensures DistinctKeys(ts + [t])
  {
    forall i | 0 <= i < |ts| ensures ToLower(ts[i]) != ToLower(t) {
      assert ts[i] in ts;
    }
  }

  /** The keys of all usable entries of `xs`. */
  function UsableKeys(xs: seq<JsValue>): set<string> {
    set k | 0 <= k < |xs| && Usable(xs[k]) :: EntryKey(xs[k])
  }

  /** `xs[k]` is usable and no earlier usable entry has its key. */
  ghost predicate IsFirst(xs: seq<JsValue>, k: int) {
    && 0 <= k < |xs|
    && Usable(xs[k])
    && forall j :: 0 <= j < k && Usable(xs[j]) ==> EntryKey(xs[j]) != EntryKey(xs[k])
  }

  /** One iteration of the loop: `x` is kept when it is usable and its key is new. */
  function Keep(prev: seq<string>, x: JsValue): (r: seq<string>)
    ensures prev <= r && |r| <= |prev| + 1
    ensures r != prev <==> Usable(x) && EntryKey(x) !in KeysOf(prev)
    ensures r != prev ==> r[|prev|] == Trim(x.s)
  {
    if Usable(x) && EntryKey(x) !in KeysOf(prev) then prev + [Trim(x.s)] else prev
  }

  /**
   * The trimmed entries `encodePaths` emits for `xs`: never more than the
   * input, each non-blank and trimmed, no two with the same key.
   */
  function Survivors(xs: seq<JsValue>): (r: seq<string>)
    ensures |r| <= |xs|
    ensures forall j :: 0 <= j < |r| ==> r[j] != [] && IsTrimmed(r[j])
    ensures DistinctKeys(r)
    decreases |xs|
  {
    if xs == [] then []
    else
      var prev := Survivors(xs[..|xs| - 1]);
      var x := xs[|xs| - 1];
      if Usable(x) && EntryKey(x) !in KeysOf(prev) then DistinctAppend(prev, Trim(x.s)); Keep(prev, x)
      else Keep(prev, x)
  }

  /** How `Survivors` grows by one entry. */
  lemma SurvivorsStep(xs: seq<JsValue>, x: JsValue)
    ensures Survivors(xs + [x]) == Keep(Survivors(xs), x)
  {
    assert (xs + [x])[..|xs|] == xs;
  }

  /** `/^\//`, `/^https?:/i` or `startsWith('data:')`: an entry that gets no '/' prefix. */
  predicate LooksAbsolute(t: string)
    ensures LooksAbsolute(t) ==> t != [] && (t[0] == '/' || LowerChar(t[0]) == 'h' || t[0] == 'd')
  {
    || StartsWith(t, "/")
    || StartsWithNoCase(t, "http:")
    || StartsWithNoCase(t, "https:")
    || StartsWith(t, "data:")
  }

  /**
   * `/…`, `data:…` and `http:`/`https:` in any case look absolute; `DATA:…`
   * does not, since the `data:` test is case-sensitive.
   */
  lemma AbsoluteForms(t: string)
    ensures LooksAbsolute("/" + t) && LooksAbsolute("data:" + t)
    ensures LooksAbsolute("HTTP:" + t) && LooksAbsolute("Https:" + t)
    ensures !LooksAbsolute("DATA:" + t)
  {
    assert "/" <= "/" + t;
    assert "data:" <= "data:" + t;
    var h, g := "HTTP:" + t, "Https:" + t;
    assert ToLower(h[..5]) == ToLower("http:") by {
      assert h[..5] == "HTTP:";
      assert forall i :: 0 <= i < 5 ==> ToLower(h[..5])[i] == ToLower("http:")[i];
    }
    assert ToLower(g[..6]) == ToLower("https:") by {
      assert g[..6] == "Https:";
      assert forall i :: 0 <= i < 6 ==> ToLower(g[..6])[i] == ToLower("https:")[i];
    }
    assert ("DATA:" + t)[0] == 'D';
  }

  /** `withPrefix`: the entry itself when it looks absolute, '/' before it otherwise; either way it then looks absolute. */
  function WithPrefix(t: string): (r: string)
    ensures LooksAbsolute(r)
    ensures r == t <==> LooksAbsolute(t)
    ensures r != t ==> r == "/" + t
  {
    if LooksAbsolute(t) then t else "/" + t
  }

  /** What the loop pushes for one surviving entry. */
  function Emit(t: string): (r: string)
    ensures r == if LooksAbsolute(t) then EncodeURI(t) else "/" + EncodeURI(t)
  {
    EncodeKeepsPrefix("/", t);
    EncodeURI(WithPrefix(t))
  }

  /** `Emit` applied to every entry, in order. */
  function EmitAll(ts: seq<string>): (r: seq<string>)
    ensures |r| == |ts|
    ensures forall j :: 0 <= j < |ts| ==> r[j] == Emit(ts[j])
  {
    if ts == [] then [] else [Emit(ts[0])] + EmitAll(ts[1..])
  }

  lemma EmitAllAppend(ts: seq<string>, t: string)
    ensures EmitAll(ts + [t]) == EmitAll(ts) + [Emit(t)]
  {
  }

  /** What one iteration of the loop does to the kept entries, their keys and the output. */
  lemma KeepCases(prev: seq<string>, x: JsValue)
    ensures !Usable(x) ==> Keep(prev, x) == prev
    ensures Usable(x) && EntryKey(x) in KeysOf(prev) ==> Keep(prev, x) == prev
    ensures Usable(x) && EntryKey(x) !in KeysOf(prev) ==>
      && KeysOf(Keep(prev, x)) == KeysOf(prev) + {EntryKey(x)}
      && EmitAll(Keep(prev, x)) == EmitAll(prev) + [EncodeURI(WithPrefix(Trim(x.s)))]
  {
    if Usable(x) && EntryKey(x) !in KeysOf(prev) {
      KeysOfAppend(prev, Trim(x.s));
      EmitAllAppend(prev, Trim(x.s));
    }
  }

  /** `files || []`: a null or undefined list reads as empty. */
  function Items(files: Option<seq<JsValue>>): (r: seq<JsValue>)
    ensures files.None? ==> r == []
    ensures files.Some? ==> r == files.value
  {
    if files.Some? then files.value else []
  }

  /** The value `encodePaths(files)` returns. */
  function PathsOf(files: Option<seq<JsValue>>): (r: seq<string>)
    ensures |r| <= |Items(files)|
    ensures files == None ==> r == []
  {
    EmitAll(Survivors(Items(files)))
  }

  /** `encodePaths`: the loop over the input with its `seen` set and `out` array. */
  method EncodePaths(files: Option<seq<JsValue>>) returns (out: seq<string>)
    ensures out == PathsOf(files)
  {
    out := [];
    var seen: set<string> := {};
    var items := Items(files);
    ghost var kept: seq<string> := [];
    for i := 0 to |items|
      invariant kept == Survivors(items[..i])
      invariant out == EmitAll(kept)
      invariant seen == KeysOf(kept)
    {
      var f := items[i];
      assert items[..i + 1] == items[..i] + [f];
      SurvivorsStep(items[..i], f);
      KeepCases(kept, f);
      kept := Keep(kept, f);
      if !f.Str? {
        continue;
      }
      var trimmed := Trim(f.s);
      if trimmed == [] {
        continue;
      }
      var key := ToLower(trimmed);
      if key in seen {
        continue;
      }
      seen := seen + {key};
      out := out + [EncodeURI(WithPrefix(trimmed))];
    }
    assert items[..|items|] == items;
  }

  /** The built-in 1x1 PNG used when no slide survives. */
  const BlankImg: string :=
    "data:" + BlankPayload

  /** The media type and base64 body of the blank image. */
  const BlankPayload: string :=
    "image/png;base64,iVBORw0KGgoAAAANSUhEUgAAAAEAAAABCAYAAAAfFcSJAAAADUlEQVQIW2NkYGD4DwABNQEA3zV8KQAAAABJRU5ErkJggg=="

  /** `computeSlides`: never empty; the encoded paths when there are any, the blank image otherwise. */
  function ComputeSlides(files: Option<seq<JsValue>>): (r: seq<string>)
    ensures |r| >= 1
    ensures PathsOf(files) != [] ==> r == PathsOf(files)
    ensures PathsOf(files) == [] ==> r == [BlankImg]
  {
    var enc := PathsOf(files);
    if |enc| > 0 then enc else [BlankImg]
  }

  // ---------------------------------------------------------------------------
  // Properties of the sanitiser
  // ---------------------------------------------------------------------------

  lemma UsableKeysAppend(xs: seq<JsValue>, x: JsValue)
    ensures UsableKeys(xs + [x]) == UsableKeys(xs) + (if Usable(x) then {EntryKey(x)} else {})
  {
    var ys := xs + [x];
    assert forall k :: 0 <= k < |xs| ==> ys[k] == xs[k];
    assert ys[|xs|] == x;
  }

  /** The keys that survive are exactly the keys of the usable entries: nothing usable is lost. */
  lemma {:induction false} SurvivorKeys(xs: seq<JsValue>)
    ensures KeysOf(Survivors(xs)) == UsableKeys(xs)
    decreases |xs|
  {
    if xs != [] {
      var p, x := xs[..|xs| - 1], xs[|xs| - 1];
      assert xs == p + [x];
      SurvivorKeys(p);
      SurvivorsStep(p, x);
      KeepCases(Survivors(p), x);
      UsableKeysAppend(p, x);
    }
  }

  /** With distinct keys, the last entry's key is not among the earlier ones. */
  lemma LastKeyNew(ts: seq<string>)
    requires ts != [] && DistinctKeys(ts)
    ensures ToLower(ts[|ts| - 1]) !in KeysOf(ts[..|ts| - 1])
  {
    var p, t := ts[..|ts| - 1], ts[|ts| - 1];
    forall u | u in p ensures ToLower(u) != ToLower(t) {
      var i :| 0 <= i < |p| && p[i] == u;
      assert ts[i] == u;
    }
  }

  lemma {:induction false} DistinctKeysCount(ts: seq<string>)
    requires DistinctKeys(ts)
    ensures |KeysOf(ts)| == |ts|
  {
    if ts != [] {
      var p, t := ts[..|ts| - 1], ts[|ts| - 1];
      assert DistinctKeys(p) by {
        assert forall i :: 0 <= i < |p| ==> p[i] == ts[i];
      }
      DistinctKeysCount(p);
      LastKeyNew(ts);
      assert ts == p + [t];
      KeysOfAppend(p, t);
    }
  }

  /** One slide per distinct key among the usable entries. */
  lemma SurvivorCount(xs: seq<JsValue>)
    ensures |Survivors(xs)| == |UsableKeys(xs)|
  {
    SurvivorKeys(xs);
    DistinctKeysCount(Survivors(xs));
  }

  /** `encodePaths` returns nothing exactly when no entry is a non-blank string. */
  lemma NothingUsable(files: Option<seq<JsValue>>)
    ensures PathsOf(files) == [] <==> forall k :: 0 <= k < |Items(files)| ==> !Usable(Items(files)[k])
  {
    var xs := Items(files);
    SurvivorCount(xs);
    if exists k :: 0 <= k < |xs| && Usable(xs[k]) {
      var k :| 0 <= k < |xs| && Usable(xs[k]);
      assert EntryKey(xs[k]) in UsableKeys(xs);
    } else {
      assert UsableKeys(xs) == {};
    }
  }

  /**
   * A non-string, a blank string, or a string whose key an earlier entry
   * already has, contributes nothing, wherever it stands.
   */
  lemma {:induction false} IgnoredEntry(xs: seq<JsValue>, x: JsValue, ys: seq<JsValue>)
    requires !Usable(x) || EntryKey(x) in UsableKeys(xs)
    ensures Survivors(xs + [x] + ys) == Survivors(xs + ys)
    decreases |ys|
  {
    if ys == [] {
      assert xs + [x] + ys == xs + [x] && xs + ys == xs;
      SurvivorsStep(xs, x);
      SurvivorKeys(xs);
      KeepCases(Survivors(xs), x);
    } else {
      var q, y := ys[..|ys| - 1], ys[|ys| - 1];
      assert ys == q + [y];
      IgnoredEntry(xs, x, q);
      assert xs + [x] + ys == (xs + [x] + q) + [y];
      assert xs + ys == (xs + q) + [y];
      SurvivorsStep(xs + [x] + q, y);
      SurvivorsStep(xs + q, y);
    }
  }

  /** Later entries never displace earlier survivors: the first occurrence wins. */
  lemma {:induction false} SurvivorsPrefix(xs: seq<JsValue>, ys: seq<JsValue>)
    ensures Survivors(xs) <= Survivors(xs + ys)
    decreases |ys|
  {
    if ys == [] {
      assert xs + ys == xs;
    } else {
      var q, y := ys[..|ys| - 1], ys[|ys| - 1];
      assert xs + ys == (xs + q) + [y];
      SurvivorsPrefix(xs, q);
      SurvivorsStep(xs + q, y);
    }
  }

  /** The input positions the survivors come from. */
  ghost function Origins(xs: seq<JsValue>): seq<nat>
    decreases |xs|
  {
    if xs == [] then []
    else
      var p := xs[..|xs| - 1];
      var x := xs[|xs| - 1];
      if Usable(x) && EntryKey(x) !in KeysOf(Survivors(p)) then Origins(p) + [|xs| - 1] else Origins(p)
  }

  /** An entry whose key some earlier usable entry already has is not a first occurrence. */
  lemma KeySeenBefore(p: seq<JsValue>, x: JsValue)
    requires Usable(x) && EntryKey(x) in UsableKeys(p)
    ensures !IsFirst(p + [x], |p|)
  {
    var j :| 0 <= j < |p| && Usable(p[j]) && EntryKey(p[j]) == EntryKey(x);
    assert (p + [x])[j] == p[j];
  }

  /** A usable entry with a key no earlier usable entry has is a first occurrence. */
  lemma KeyNotSeen(p: seq<JsValue>, x: JsValue)
    requires Usable(x) && EntryKey(x) !in UsableKeys(p)
    ensures IsFirst(p + [x], |p|)
  {
    var xs := p + [x];
    forall j | 0 <= j < |p| && Usable(xs[j]) ensures EntryKey(xs[j]) != EntryKey(x) {
      assert xs[j] == p[j];
      assert EntryKey(p[j]) in UsableKeys(p);
    }
  }

  lemma FirstOfLast(xs: seq<JsValue>)
    requires xs != []
    ensures IsFirst(xs, |xs| - 1) <==> Usable(xs[|xs| - 1]) && EntryKey(xs[|xs| - 1]) !in UsableKeys(xs[..|xs| - 1])
  {
    var p, x := xs[..|xs| - 1], xs[|xs| - 1];
    assert xs == p + [x];
    if Usable(x) {
      if EntryKey(x) in UsableKeys(p) {
        KeySeenBefore(p, x);
      } else {
        KeyNotSeen(p, x);
      }
    }
  }

  /** Whether an entry is a first occurrence does not depend on what follows it. */
  lemma FirstInPrefix(xs: seq<JsValue>, k: int)
    requires 0 <= k < |xs| - 1
    ensures IsFirst(xs, k) <==> IsFirst(xs[..|xs| - 1], k)
  {
    var p := xs[..|xs| - 1];
    assert forall j :: 0 <= j <= k ==> xs[j] == p[j];
  }

  /** Each survivor is the trimmed text of the input entry at its origin; origins increase. */
  lemma {:induction false} OriginsMatch(xs: seq<JsValue>)
    ensures |Origins(xs)| == |Survivors(xs)|
    ensures forall j :: 0 <= j < |Origins(xs)| ==>
      && Origins(xs)[j] < |xs|
      && Usable(xs[Origins(xs)[j]])
      && Survivors(xs)[j] == Trim(xs[Origins(xs)[j]].s)
    ensures forall i, j :: 0 <= i < j < |Origins(xs)| ==> Origins(xs)[i] < Origins(xs)[j]
    decreases |xs|
  {
    if xs != [] {
      var p, x, n := xs[..|xs| - 1], xs[|xs| - 1], |xs| - 1;
      OriginsMatch(p);
      assert forall k :: 0 <= k < n ==> xs[k] == p[k];
      if Usable(x) && EntryKey(x) !in KeysOf(Survivors(p)) {
        assert Origins(xs) == Origins(p) + [n];
        assert Survivors(xs) == Survivors(p) + [Trim(x.s)];
      } else {
        assert Origins(xs) == Origins(p);
        assert Survivors(xs) == Survivors(p);
      }
    }
  }

  /** Every origin is the position of a first occurrence. */
  lemma {:induction false} OriginsAreFirst(xs: seq<JsValue>)
    ensures forall j :: 0 <= j < |Origins(xs)| ==> IsFirst(xs, Origins(xs)[j])
    decreases |xs|
  {
    if xs != [] {
      var p, x, n := xs[..|xs| - 1], xs[|xs| - 1], |xs| - 1;
      OriginsAreFirst(p);
      OriginsMatch(p);
      forall j | 0 <= j < |Origins(p)| ensures IsFirst(xs, Origins(p)[j]) {
        FirstInPrefix(xs, Origins(p)[j]);
      }
      if Usable(x) && EntryKey(x) !in KeysOf(Survivors(p)) {
        SurvivorKeys(p);
        FirstOfLast(xs);
        assert Origins(xs) == Origins(p) + [n];
      }
    }
  }

  /** Every first occurrence is an origin. */
  lemma {:induction false} FirstAreOrigins(xs: seq<JsValue>)
    ensures forall k :: IsFirst(xs, k) ==> k in Origins(xs)
    decreases |xs|
  {
    if xs != [] {
      var p, x, n := xs[..|xs| - 1], xs[|xs| - 1], |xs| - 1;
      FirstAreOrigins(p);
      forall k | IsFirst(xs, k) ensures k in Origins(xs) {
        if k < n {
          FirstInPrefix(xs, k);
          assert k in Origins(p);
        } else {
          SurvivorKeys(p);
          FirstOfLast(xs);
        }
      }
    }
  }

  /**
   * The survivors are exactly the first occurrences of each key, in the order
   * they appear in the input, each one the trimmed text of its entry.
   */
  lemma FirstOccurrences(xs: seq<JsValue>)
    ensures |Origins(xs)| == |Survivors(xs)|
    ensures forall j :: 0 <= j < |Origins(xs)| ==>
      && IsFirst(xs, Origins(xs)[j])
      && Survivors(xs)[j] == Trim(xs[Origins(xs)[j]].s)
    ensures forall i, j :: 0 <= i < j < |Origins(xs)| ==> Origins(xs)[i] < Origins(xs)[j]
    ensures forall k :: IsFirst(xs, k) ==> k in Origins(xs)
  {
    OriginsMatch(xs);
    OriginsAreFirst(xs);
    FirstAreOrigins(xs);
  }

  /** An emitted path always looks absolute, so resolving it again would add nothing. */
  lemma EmitForm(t: string)
    ensures LooksAbsolute(Emit(t))
    ensures !LooksAbsolute(t) ==> Emit(t) == "/" + EncodeURI(t)
    ensures LooksAbsolute(t) ==> Emit(t) == EncodeURI(t)
  {
    if !LooksAbsolute(t) {
      assert StartsWith("/" + EncodeURI(t), "/");
    } else {
      EncodeStaysAbsolute(t);
    }
  }

  /** Encoding keeps each of the absolute-looking starts. */
  lemma EncodeStaysAbsolute(t: string)
    requires LooksAbsolute(t)
    ensures LooksAbsolute(EncodeURI(t))
  {
    AbsoluteStartsUnescaped();
    if StartsWith(t, "/") {
      KeepsPrefix(t, "/");
    } else if StartsWith(t, "data:") {
      KeepsPrefix(t, "data:");
    } else if StartsWithNoCase(t, "http:") {
      NoCaseKeepsPrefix(t, "http:");
    } else {
      NoCaseKeepsPrefix(t, "https:");
    }
  }

  /** None of the absolute-looking starts needs escaping. */
  lemma AbsoluteStartsUnescaped()
    ensures AllUnescaped("/") && AllUnescaped("data:")
    ensures AllUnescaped("http:") && AllUnescaped("https:")
  {
  }

  lemma KeepsPrefix(t: string, p: string)
    requires AllUnescaped(p) && StartsWith(t, p)
    ensures StartsWith(EncodeURI(t), p)
  {
    assert t == p + t[|p|..];
    EncodeKeepsPrefix(p, t[|p|..]);
  }

  lemma NoCaseKeepsPrefix(t: string, p: string)
    requires AllUnescaped(p) && StartsWithNoCase(t, p)
    ensures StartsWithNoCase(EncodeURI(t), p)
  {
    var q := t[..|p|];
    forall i | 0 <= i < |q| ensures IsUnescaped(q[i]) {
      assert LowerChar(q[i]) == ToLower(q)[i] == ToLower(p)[i] == LowerChar(p[i]);
    }
    assert t == q + t[|p|..];
    EncodeKeepsPrefix(q, t[|p|..]);
    assert EncodeURI(t)[..|p|] == q;
  }

  /**
   * Every path `encodePaths` returns is the encoding of a surviving entry,
   * prefixed with '/' exactly when the entry did not look absolute, and looks
   * absolute itself.
   */
  lemma PathsOfForm(files: Option<seq<JsValue>>, j: int)
    requires 0 <= j < |PathsOf(files)|
    ensures var t := Survivors(Items(files))[j];
      PathsOf(files)[j] == (if LooksAbsolute(t) then EncodeURI(t) else "/" + EncodeURI(t))
    ensures LooksAbsolute(PathsOf(files)[j])
  {
    EmitForm(Survivors(Items(files))[j]);
  }

  /** The blank image is a data URI, so it is used as it is. */
  lemma BlankImgForm()
    ensures StartsWith(BlankImg, "data:") && LooksAbsolute(BlankImg)
  {
    assert BlankImg[..5] == "data:";
  }

  /**
   * `computeSlides` gives one slide per distinct usable key, or the blank
   * image alone when there is none.
   */
  lemma SlidesCount(files: Option<seq<JsValue>>)
    ensures var xs := Items(files);
      (forall k :: 0 <= k < |xs| ==> !Usable(xs[k])) ==> ComputeSlides(files) == [BlankImg]
    ensures var xs := Items(files);
      (exists k :: 0 <= k < |xs| && Usable(xs[k])) ==> |ComputeSlides(files)| == |UsableKeys(xs)|
  {
    NothingUsable(files);
    SurvivorCount(Items(files));
  }

  /** Every slide, the fallback included, looks absolute. */
  lemma SlidesLookAbsolute(files: Option<seq<JsValue>>)
    ensures forall j :: 0 <= j < |ComputeSlides(files)| ==> LooksAbsolute(ComputeSlides(files)[j])
  {
    forall j | 0 <= j < |PathsOf(files)| ensures LooksAbsolute(PathsOf(files)[j]) {
      PathsOfForm(files, j);
    }
    BlankImgForm();
  }
}
