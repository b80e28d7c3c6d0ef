/** `html.replace(/<br\s*\/?>/gi, '\n')`: every line-break tag of the release
    notes markup becomes a newline character. */
module LineBreaks {
  import opened Wrappers
  import JsString

  /** The tag `<br`, letters in either case, starts at `i`. */
  predicate BrOpensAt(s: string, i: nat) {
    && i + 3 <= |s|
    && s[i] == '<'
    && (s[i + 1] == 'b' || s[i + 1] == 'B')
    && (s[i + 2] == 'r' || s[i + 2] == 'R')
  }

  /** The end of the match of `<br\s*\/?>` at `i`, if the pattern matches there. */
  function TagEnd(s: string, i: nat): (r: Option<nat>)
    requires i <= |s|
    ensures r.Some? ==> i + 4 <= r.value <= |s| && s[i] == '<' && s[r.value - 1] == '>'
  {
    if BrOpensAt(s, i) then
      var k := JsString.SkipSpaces(s, i + 3);
      if k < |s| && s[k] == '>' then Some(k + 1)
      else if k + 1 < |s| && s[k] == '/' && s[k + 1] == '>' then Some(k + 2)
      else None
    else
      None
  }

  /** `t` is a whole match of `<br\s*\/?>` without regard to case: `<`, `b`,
      `r`, white space, an optional `/`, and `>`. */
  predicate IsBrTag(t: string) {
    && |t| >= 4
    && t[0] == '<'
    && (t[1] == 'b' || t[1] == 'B')
    && (t[2] == 'r' || t[2] == 'R')
    && t[|t| - 1] == '>'
    && (forall k :: 3 <= k < |t| - 1 ==> JsString.IsSpace(t[k]) || (k == |t| - 2 && t[k] == '/'))
  }

  /** `TagEnd` finds exactly the tag that starts at `i`: it reports `e` when
      `s[i..e]` is a tag and only then, so there is at most one such `e`. */
  lemma TagEndCorrect(s: string, i: nat, e: nat)
    requires i <= |s|
    ensures TagEnd(s, i) == Some(e) <==> i < e <= |s| && IsBrTag(s[i..e])
  {
    TagEndFindsTag(s, i, e);
    TagEndIsTag(s, i, e);
  }

  /** A tag that starts at `i` is the one `TagEnd` reports. */
  lemma TagEndFindsTag(s: string, i: nat, e: nat)
    requires i <= |s|
    ensures i < e <= |s| && IsBrTag(s[i..e]) ==> TagEnd(s, i) == Some(e)
  {
    if i < e <= |s| && IsBrTag(s[i..e]) {
      var t := s[i..e];
      assert BrOpensAt(s, i) by { assert t[0] == s[i] && t[1] == s[i + 1] && t[2] == s[i + 2]; }
      if t[|t| - 2] == '/' && |t| >= 5 {
        assert forall p :: i + 3 <= p < e - 2 ==> JsString.IsSpace(s[p]) by {
          forall p | i + 3 <= p < e - 2 ensures JsString.IsSpace(s[p]) {
            assert s[p] == t[p - i];
          }
        }
        assert s[e - 2] == '/' && s[e - 1] == '>';
        SkipSpacesStops(s, i + 3, e - 2);
      } else {
        assert forall p :: i + 3 <= p < e - 1 ==> JsString.IsSpace(s[p]) by {
          forall p | i + 3 <= p < e - 1 ensures JsString.IsSpace(s[p]) {
            assert s[p] == t[p - i];
          }
        }
        assert s[e - 1] == '>';
        SkipSpacesStops(s, i + 3, e - 1);
      }
    }
  }

  /** What `TagEnd` reports is a tag. */
  lemma TagEndIsTag(s: string, i: nat, e: nat)
    requires i <= |s|
    ensures TagEnd(s, i) == Some(e) ==> i < e <= |s| && IsBrTag(s[i..e])
  {
    if TagEnd(s, i) == Some(e) {
      var k := JsString.SkipSpaces(s, i + 3);
      var t := s[i..e];
      forall p | 3 <= p < |t| - 1
        ensures JsString.IsSpace(t[p]) || (p == |t| - 2 && t[p] == '/')
      {
        assert t[p] == s[i + p];
      }
    }
  }

  /** Skipping white space from `i` stops at `j` when everything before `j` is
      white space and `s[j]` is not. */
  lemma {:induction false} SkipSpacesStops(s: string, i: nat, j: nat)
    requires i <= j < |s|
    requires forall p :: i <= p < j ==> JsString.IsSpace(s[p])
    requires !JsString.IsSpace(s[j])
    ensures JsString.SkipSpaces(s, i) == j
    decreases j - i
  {
    if i < j {
      SkipSpacesStops(s, i + 1, j);
    }
  }

  /** The global replacement of the matches in `s[i..]`, scanning left to
      right and resuming after each match. */
  function ReplaceFrom(s: string, i: nat): (r: string)
    requires i <= |s|
    ensures |r| <= |s| - i
    decreases |s| - i
  {
    if i == |s| then []
    else
      match TagEnd(s, i)
      case Some(e) => "\n" + ReplaceFrom(s, e)
      case None => [s[i]] + ReplaceFrom(s, i + 1)
  }

  /** `html.replace(/<br\s*\/?>/gi, '\n')`. */
  function ReplaceBreaks(s: string): (r: string)
    ensures |r| <= |s|
  {
    ReplaceFrom(s, 0)
  }

  /** A tag at `i` becomes one newline, and the rewrite resumes after it. */
  lemma ReplacesTag(s: string, i: nat, e: nat)
    requires i < e <= |s| && IsBrTag(s[i..e])
    ensures ReplaceFrom(s, i) == "\n" + ReplaceFrom(s, e)
  {
    TagEndCorrect(s, i, e);
  }

  /** A character that does not start a tag is copied, and the rewrite resumes after it. */
  lemma CopiesNonTag(s: string, i: nat)
    requires i < |s|
    requires forall e :: i < e <= |s| ==> !IsBrTag(s[i..e])
    ensures ReplaceFrom(s, i) == [s[i]] + ReplaceFrom(s, i + 1)
  {
    if TagEnd(s, i).Some? {
      TagEndCorrect(s, i, TagEnd(s, i).value);
    }
  }

  /** A character that does not open a tag is copied. */
  lemma CopiesPlainChar(s: string, i: nat)
    requires i < |s| && s[i] != '<'
    ensures ReplaceFrom(s, i) == [s[i]] + ReplaceFrom(s, i + 1)
  {
    assert !BrOpensAt(s, i);
  }

  /** Text up to the next `<` is copied unchanged, and the rewrite carries on after it. */
  lemma {:induction false} KeepsTextBeforeTag(s: string, i: nat, k: nat)
    requires i <= k <= |s|
    requires forall p :: i <= p < k ==> s[p] != '<'
    ensures ReplaceFrom(s, i) == s[i..k] + ReplaceFrom(s, k)
    decreases k - i
  {
    if i < k {
      CopiesPlainChar(s, i);
      KeepsTextBeforeTag(s, i + 1, k);
      assert [s[i]] + s[i + 1..k] == s[i..k];
    }
  }

  /** A string without `<` is left as it is. */
  lemma NoTagUnchanged(s: string)
    requires '<' !in s
    ensures ReplaceBreaks(s) == s
  {
    KeepsTextBeforeTag(s, 0, |s|);
  }

  /** Both spellings of the tag, with and without the slash, become newlines. */
  lemma BreaksExample()
    ensures ReplaceBreaks("a<br/>b<BR >c") == "a\nb\nc"
  {
    var s := "a<br/>b<BR >c";
    assert TagEnd(s, 0).None?;
    assert TagEnd(s, 1) == Some(6);
    assert TagEnd(s, 6).None?;
    assert JsString.SkipSpaces(s, 10) == 11;
    assert TagEnd(s, 7) == Some(12);
    assert TagEnd(s, 12).None?;
  }
}
