/** The extension-URL path extractor of the stack-trace mapper: from the file part of a stack frame
    it recovers the path of a script inside the unpacked extension, either from a full
    `chrome-extension://<id>/...` URL or from a path in which `chrome-extension:/<id>` appears
    after normalisation has collapsed the double slash. */
module ExtensionPath {

  datatype Option<T> = None | Some(value: T)

  /** The scheme as it survives path normalisation (one slash). */
  const SchemePrefix: string := "chrome-extension:/"

  /** The scheme as it appears in a full URL. */
  const DirectPrefix: string := "chrome-extension://"

  /** The characters of an extension id: the letters a to p. */
  predicate IsIdChar(c: char)
  {
    'a' <= c <= 'p'
  }

  /** An extension id: exactly 32 letters from a to p. */
  predicate IsExtensionId(id: string)
  {
    |id| == 32 && forall i :: 0 <= i < |id| ==> IsIdChar(id[i])
  }

  /** The characters a regular-expression `.` does not match without the `s` flag. */
  predicate IsLineTerminator(c: char)
  {
    c == '\n' || c == '\r' || c == '\U{2028}' || c == '\U{2029}'
  }

  /** What the group `(\/.*\.js)` captures when it must reach the end of the input: a slash, any
      characters other than line terminators, and the suffix `.js`. */
  predicate IsJsPath(p: string)
  {
    |p| >= 4 && p[0] == '/' && p[|p| - 3..] == ".js" &&
    forall i :: 0 <= i < |p| ==> !IsLineTerminator(p[i])
  }

  /** The anchored pattern `^[a-p]{32}(\/.*\.js)$`: it matches exactly when `s` splits into an id
      and a script path, and the capture is that path. */
  function MatchIdAndPath(s: string): (r: Option<string>)
    ensures r.Some? <==> exists id, p :: s == id + p && IsExtensionId(id) && IsJsPath(p)
    ensures forall id, p :: s == id + p && IsExtensionId(id) && IsJsPath(p) ==> r == Some(p)
  {
    if |s| >= 32 && IsExtensionId(s[..32]) && IsJsPath(s[32..]) then
      assert s == s[..32] + s[32..];
      Some(s[32..])
    else
      None
  }

  /** `pat` occurs in `s` starting at index `i`. */
  predicate OccursAt(s: string, pat: string, i: int)
  {
    0 <= i && i + |pat| <= |s| && s[i..i + |pat|] == pat
  }

  /** The first occurrence of `pat` in `s` at index `from` or later, or -1. */
  function IndexFrom(s: string, pat: string, from: nat): (r: int)
    ensures r == -1 || (from <= r && OccursAt(s, pat, r))
    ensures forall j :: from <= j && (r == -1 || j < r) ==> !OccursAt(s, pat, j)
    decreases |s| - from
  {
    if from + |pat| > |s| then -1
    else if s[from..from + |pat|] == pat then from
    else IndexFrom(s, pat, from + 1)
  }

  /** `String.prototype.indexOf`: the index of the first occurrence of `pat` in `s`, or -1. */
  function IndexOf(s: string, pat: string): (r: int)
    ensures r == -1 <==> forall j :: !OccursAt(s, pat, j)
    ensures r != -1 ==> OccursAt(s, pat, r) && forall j :: 0 <= j < r ==> !OccursAt(s, pat, j)
  {
    IndexFrom(s, pat, 0)
  }

  /** The full pattern `^chrome-extension:\/\/[a-p]{32}(\/.*\.js)$` matches `file`. */
  predicate DirectMatch(file: string)
  {
    |file| >= |DirectPrefix| && file[..|DirectPrefix|] == DirectPrefix &&
    MatchIdAndPath(file[|DirectPrefix|..]).Some?
  }

  /** The extractor: a full extension URL first, then whatever follows the first occurrence of the
      normalised scheme. */
  function GetChromeExtensionJsPath(file: string): (r: Option<string>)
    ensures r.Some? ==> IsJsPath(r.value)
    ensures r.Some? ==> |r.value| <= |file| && file[|file| - |r.value|..] == r.value
  {
    if DirectMatch(file) then MatchIdAndPath(file[|DirectPrefix|..])
    else
      var idx := IndexOf(file, SchemePrefix);
      if idx == -1 then None
      else MatchIdAndPath(file[idx + |SchemePrefix|..])
  }

  /** A full URL with a valid id and a script path yields that path. */
  lemma DirectUrl(id: string, p: string)
    requires IsExtensionId(id) && IsJsPath(p)
    ensures GetChromeExtensionJsPath(DirectPrefix + id + p) == Some(p)
  {
  }

  /** `p` is the tail of `file` right after a valid id starting at index `k`. */
  predicate PathAfterId(file: string, k: int, p: string)
  {
    0 <= k && k + 32 + |p| == |file| && IsExtensionId(file[k..k + 32]) && file[k + 32..] == p
  }

  /** Every extracted path is the tail of the input after a valid id, and the id follows the scheme:
      with two slashes at the start of the input, or right after the FIRST occurrence of the scheme
      with one slash. In particular an input without `chrome-extension:/` yields nothing. */
  lemma ExtractedAfterId(file: string)
    requires GetChromeExtensionJsPath(file).Some?
    ensures var p := GetChromeExtensionJsPath(file).value;
            exists k :: PathAfterId(file, k, p) &&
              ((k == |DirectPrefix| && OccursAt(file, DirectPrefix, 0)) ||
               (IndexOf(file, SchemePrefix) != -1 && k == IndexOf(file, SchemePrefix) + |SchemePrefix|))
  {
    if DirectMatch(file) {
      MatchedTail(file, |DirectPrefix|);
      assert OccursAt(file, DirectPrefix, 0);
    } else {
      var k := IndexOf(file, SchemePrefix) + |SchemePrefix|;
      MatchedTail(file, k);
    }
  }

  /** A match of the id-and-path pattern on the tail of `file` from `k` on. */
  lemma MatchedTail(file: string, k: nat)
    requires k <= |file| && MatchIdAndPath(file[k..]).Some?
    ensures PathAfterId(file, k, MatchIdAndPath(file[k..]).value)
  {
    var rest := file[k..];
    assert rest == rest[..32] + rest[32..];
    assert rest[..32] == file[k..k + 32];
    assert rest[32..] == file[k + 32..];
  }

  /** In the fallback only the first occurrence of the normalised scheme counts: when `pre` holds
      no occurrence and the input is no full URL, the anchored pattern applied to whatever follows
      `pre + "chrome-extension:/"` decides the result, whatever later occurrences `rest` holds. */
  lemma FallbackFirstOccurrence(pre: string, rest: string)
    requires forall j :: 0 <= j < |pre| ==> !OccursAt(pre + SchemePrefix + rest, SchemePrefix, j)
    requires !DirectMatch(pre + SchemePrefix + rest)
    ensures GetChromeExtensionJsPath(pre + SchemePrefix + rest) == MatchIdAndPath(rest)
  {
    var file := pre + SchemePrefix + rest;
    assert file[|pre|..|pre| + |SchemePrefix|] == SchemePrefix;
    assert OccursAt(file, SchemePrefix, |pre|);
    assert file[|pre| + |SchemePrefix|..] == rest;
  }

  /** With `pre` free of the normalised scheme, prefix + `chrome-extension:/` + id + path yields the
      path. */
  lemma FirstOccurrenceDecides(pre: string, id: string, p: string)
    requires IsExtensionId(id) && IsJsPath(p)
    requires forall j :: 0 <= j < |pre| ==> !OccursAt(pre + SchemePrefix + id + p, SchemePrefix, j)
    ensures GetChromeExtensionJsPath(pre + SchemePrefix + id + p) == Some(p)
  {
    var file := pre + SchemePrefix + id + p;
    var n := |SchemePrefix|;
    assert file == pre + SchemePrefix + (id + p);
    if |pre| == 0 {
      assert file[n] == id[0] && IsIdChar(id[0]);
      assert file[n] != DirectPrefix[n];
    } else {
      assert !OccursAt(file, SchemePrefix, 0);
      assert file[..n] != DirectPrefix[..n];
    }
    FallbackFirstOccurrence(pre, id + p);
  }

  /** The path form the mapper meets after `resolve` has normalised a URL inside a file path. */
  lemma NormalisedExample(id: string)
    requires IsExtensionId(id)
    ensures GetChromeExtensionJsPath("/abs/" + SchemePrefix + id + "/src/main/background.js") ==
            Some("/src/main/background.js")
  {
    var p := "/src/main/background.js";
    assert IsJsPath(p) by {
      assert p[|p| - 3..] == ".js";
    }
    var file := "/abs/" + SchemePrefix + id + p;
    forall j | 0 <= j < 5
      ensures !OccursAt(file, SchemePrefix, j)
    {
      assert file[j + 4] != SchemePrefix[4];
    }
    FirstOccurrenceDecides("/abs/", id, p);
  }

  /** An example of a later, well-formed occurrence being ignored: the first occurrence is followed
      by `q/` rather than an id, so nothing is extracted. */
  lemma FirstOccurrenceBlocks(id: string, p: string)
    requires IsExtensionId(id) && IsJsPath(p)
    ensures GetChromeExtensionJsPath(SchemePrefix + "q/" + SchemePrefix + id + p) == None
  {
    var rest := "q/" + SchemePrefix + id + p;
    assert SchemePrefix + "q/" + SchemePrefix + id + p == [] + SchemePrefix + rest;
    assert rest[0] == 'q' && !IsIdChar('q');
    FallbackFirstOccurrence([], rest);
  }
}
