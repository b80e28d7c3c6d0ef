/** The version token of the newest page layout: the first match of the
    regular expression `[0-9]+\.[0-9]+(\.[0-9]+)*` in the trimmed label,
    or the label itself when nothing matches. */
module VersionToken {
  import opened Wrappers

  predicate IsDigit(c: char) {
    '0' <= c <= '9'
  }

  /** Digits and dots only, a digit at both ends and never two dots in a row. */
  ghost predicate DigitGroups(t: string) {
    && |t| > 0
    && IsDigit(t[0])
    && IsDigit(t[|t| - 1])
    && (forall k :: 0 <= k < |t| ==> IsDigit(t[k]) || t[k] == '.')
    && (forall k :: 0 <= k < |t| - 1 ==> t[k] == '.' ==> t[k + 1] != '.')
  }

  /** The strings the pattern `[0-9]+(\.[0-9]+)+` matches: at least two groups of digits. */
  ghost predicate IsDottedToken(t: string) {
    DigitGroups(t) && '.' in t
  }

  /** No substring of `s` that starts at `i` is a token. */
  ghost predicate NoTokenAt(s: string, i: nat)
    requires i <= |s|
  {
    forall m :: i < m <= |s| ==> !IsDottedToken(s[i..m])
  }

  /** Some substring of `s` is a token. */
  ghost predicate HasToken(s: string) {
    exists k, m :: 0 <= k < m <= |s| && IsDottedToken(s[k..m])
  }

  /** `s[i..e]` is the match a backtracking regular-expression engine reports:
      no match starts further left, and no match starting at `i` is longer. */
  ghost predicate IsLeftmostLongest(s: string, i: nat, e: nat) {
    && i < e <= |s|
    && IsDottedToken(s[i..e])
    && (forall k :: 0 <= k < i ==> NoTokenAt(s, k))
    && (forall m :: e < m <= |s| ==> !IsDottedToken(s[i..m]))
  }

  /** End of the maximal run of digits starting at `i`. */
  function DigitRunEnd(s: string, i: nat): (j: nat)
    requires i <= |s|
    ensures i <= j <= |s|
    ensures forall p :: i <= p < j ==> IsDigit(s[p])
    ensures j == |s| || !IsDigit(s[j])
    decreases |s| - i
  {
    if i < |s| && IsDigit(s[i]) then DigitRunEnd(s, i + 1) else i
  }

  /** A group `\.[0-9]+` can start at `j`. */
  predicate DotDigitAt(s: string, j: nat) {
    j + 1 < |s| && s[j] == '.' && IsDigit(s[j + 1])
  }

  /** Greedy repetition of `(\.[0-9]+)*` from the end `g` of a digit group. */
  function GroupsEnd(s: string, g: nat): (e: nat)
    requires g <= |s|
    ensures g <= e <= |s|
    decreases |s| - g
  {
    if DotDigitAt(s, g) then GroupsEnd(s, DigitRunEnd(s, g + 1)) else g
  }

  /** The end of the greedy match starting at `i`, if the pattern matches there. */
  function MatchEnd(s: string, i: nat): Option<nat>
    requires i <= |s|
  {
    if i < |s| && IsDigit(s[i]) && DotDigitAt(s, DigitRunEnd(s, i)) then
      Some(GroupsEnd(s, DigitRunEnd(s, i)))
    else
      None
  }

  /** Each greedy extension keeps the digit-group shape and adds a dot. */
  lemma {:induction false} GroupsEndSound(s: string, i: nat, g: nat)
    requires i < g <= |s|
    requires DigitGroups(s[i..g])
    ensures DigitGroups(s[i..GroupsEnd(s, g)])
    ensures GroupsEnd(s, g) > g ==> '.' in s[i..GroupsEnd(s, g)]
    decreases |s| - g
  {
    if DotDigitAt(s, g) {
      var g' := DigitRunEnd(s, g + 1);
      var u := s[i..g];
      var t := s[i..g'];
      forall k | 0 <= k < |t|
        ensures IsDigit(t[k]) || t[k] == '.'
      {
        if k < |u| { assert t[k] == u[k]; }
      }
      forall k | 0 <= k < |t| - 1
        ensures t[k] == '.' ==> t[k + 1] != '.'
      {
        if k < |u| - 1 {
          assert t[k] == u[k] && t[k + 1] == u[k + 1];
        } else if k == |u| - 1 {
          assert t[k] == u[k];
        }
      }
      assert DigitGroups(t);
      GroupsEndSound(s, i, g');
      var e := GroupsEnd(s, g');
      assert s[i..e][g - i] == '.';
    }
  }

  /** No token starting at `i` reaches past the greedy end. */
  lemma {:induction false} GroupsEndMaximal(s: string, i: nat, g: nat, m: nat)
    requires i < g <= m <= |s|
    requires DigitGroups(s[i..m])
    requires g == |s| || !IsDigit(s[g])
    ensures m <= GroupsEnd(s, g)
    decreases |s| - g
  {
    if m > g {
      var t := s[i..m];
      assert t[g - i] == s[g];
      assert g - i < |t| - 1;
      assert t[g - i + 1] == s[g + 1];
      assert DotDigitAt(s, g);
      var g' := DigitRunEnd(s, g + 1);
      if g' < m {
        GroupsEndMaximal(s, i, g', m);
      }
    }
  }

  /** A token starting at `i` begins with a digit group followed by `.` and a digit. */
  lemma FirstGroup(s: string, i: nat, m: nat)
    requires i < m <= |s|
    ensures IsDottedToken(s[i..m]) ==> IsDigit(s[i]) && DotDigitAt(s, DigitRunEnd(s, i))
  {
    var t := s[i..m];
    if IsDottedToken(t) {
      assert t[0] == s[i];
      var j := DigitRunEnd(s, i);
      var p :| 0 <= p < |t| && t[p] == '.';
      assert t[p] == s[i + p];
      assert j < m;
      assert t[j - i] == s[j];
      assert j - i < |t| - 1;
      assert t[j - i + 1] == s[j + 1];
    }
  }

  /** The greedy match at `i` is a token and the longest one starting there;
      when there is no greedy match, no token starts at `i`. */
  lemma MatchEndCorrect(s: string, i: nat)
    requires i <= |s|
    ensures MatchEnd(s, i).Some? ==>
      && i < MatchEnd(s, i).value <= |s|
      && IsDottedToken(s[i..MatchEnd(s, i).value])
      && forall m :: MatchEnd(s, i).value < m <= |s| ==> !IsDottedToken(s[i..m])
    ensures MatchEnd(s, i).None? ==> NoTokenAt(s, i)
  {
    if MatchEnd(s, i).Some? {
      var j := DigitRunEnd(s, i);
      assert DigitGroups(s[i..j]);
      GroupsEndSound(s, i, j);
      var e := GroupsEnd(s, j);
      forall m | e < m <= |s|
        ensures !IsDottedToken(s[i..m])
      {
        if DigitGroups(s[i..m]) {
          GroupsEndMaximal(s, i, j, m);
        }
      }
    } else {
      forall m | i < m <= |s|
        ensures !IsDottedToken(s[i..m])
      {
        FirstGroup(s, i, m);
      }
    }
  }

  /** Tries the start positions from `i` onwards, leftmost first. */
  function FindFrom(s: string, i: nat): (r: Option<(nat, nat)>)
    requires i <= |s|
    ensures r.None? ==> forall k :: i <= k <= |s| ==> NoTokenAt(s, k)
    ensures r.Some? ==>
      && i <= r.value.0 < r.value.1 <= |s|
      && IsDottedToken(s[r.value.0..r.value.1])
      && (forall k :: i <= k < r.value.0 ==> NoTokenAt(s, k))
      && (forall m :: r.value.1 < m <= |s| ==> !IsDottedToken(s[r.value.0..m]))
    decreases |s| - i
  {
    if i == |s| then None
    else
      MatchEndCorrect(s, i);
      match MatchEnd(s, i)
      case Some(e) => Some((i, e))
      case None => FindFrom(s, i + 1)
  }

  /** The search from the start fails exactly when no substring is a token. */
  lemma FindFromStart(s: string)
    ensures FindFrom(s, 0).None? <==> !HasToken(s)
  {
    var r := FindFrom(s, 0);
    if r.Some? {
      assert IsDottedToken(s[r.value.0..r.value.1]);
    } else {
      forall k, m | 0 <= k < m <= |s|
        ensures !IsDottedToken(s[k..m])
      {
        assert NoTokenAt(s, k);
      }
    }
  }

  /** `text.match(/([0-9]+\.[0-9]+(\.[0-9]+)*)/)`: the position of the first match. */
  function Locate(s: string): (r: Option<(nat, nat)>)
    ensures r.None? <==> !HasToken(s)
    ensures r.Some? ==> IsLeftmostLongest(s, r.value.0, r.value.1)
  {
    FindFromStart(s);
    FindFrom(s, 0)
  }

  /** `versionMatch ? versionMatch[0] : text` for the trimmed version label `text`. */
  function VersionFromLabel(text: string): (v: string)
    ensures !HasToken(text) ==> v == text
    ensures HasToken(text) ==> IsDottedToken(v)
    ensures Locate(text).Some? ==> v == text[Locate(text).value.0..Locate(text).value.1]
    ensures v == "" <==> text == ""
  {
    match Locate(text)
    case Some((i, e)) => text[i..e]
    case None => text
  }

  /** The label's version is the leftmost-longest token, whenever there is one. */
  lemma LabelIsLeftmostLongest(text: string)
    ensures HasToken(text) ==>
      exists i: nat, e: nat :: IsLeftmostLongest(text, i, e) && VersionFromLabel(text) == text[i..e]
  {
    if HasToken(text) {
      var (i, e) := Locate(text).value;
      assert IsLeftmostLongest(text, i, e) && VersionFromLabel(text) == text[i..e];
    }
  }
}
