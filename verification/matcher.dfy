/** The Kernighan–Pike matcher of the plugin: literals, `.`, `c*`, a leading
    `^` and a trailing `$`. Patterns and texts are C strings; reading past the
    end of a sequence is reading the C terminator. */
module Matcher {
  import opened CStrings

  /** matchhere: does `re` match a prefix of `text`? */
  function MatchHere(re: CString, text: CString): bool
    decreases |re|, |text|
  {
    if |re| == 0 then true
    else if |re| >= 2 && re[1] == '*' then MatchStar(re[0], re[2..], text)
    else if re == "$" then |text| == 0
    else if |text| > 0 && (re[0] == '.' || re[0] == text[0]) then MatchHere(re[1..], text[1..])
    else false
  }

  /** matchstar: does `c*` followed by `re` match a prefix of `text`? The
      shortest run of `c` is tried first; `.` as `c` accepts any character. */
  function MatchStar(c: char, re: CString, text: CString): bool
    decreases |re| + 1, |text|
  {
    MatchHere(re, text)
    || (|text| > 0 && (text[0] == c || c == '.') && MatchStar(c, re, text[1..]))
  }

  /** The search loop of `match`: try `re` at every suffix of `text`, the
      empty suffix at the end included. */
  function MatchAnywhere(re: CString, text: CString): bool
    decreases |text|
  {
    MatchHere(re, text) || (|text| > 0 && MatchAnywhere(re, text[1..]))
  }

  /** match: a leading `^` anchors at the start of the text, otherwise the
      pattern is searched for anywhere. */
  function Match(re: CString, text: CString): bool
  {
    if |re| > 0 && re[0] == '^' then MatchHere(re[1..], text)
    else MatchAnywhere(re, text)
  }

  /** Every character of `run` is one that `c*` may consume. */
  ghost predicate StarRun(c: char, run: seq<char>)
  {
    forall i :: 0 <= i < |run| ==> run[i] == c || c == '.'
  }

  /** The backtracking loop of matchstar succeeds exactly when some run of
      accepted characters, of any length, is followed by a match of `re`. */
  lemma {:induction false} MatchStarRuns(c: char, re: CString, text: CString)
    ensures MatchStar(c, re, text) <==>
      exists n :: 0 <= n <= |text| && StarRun(c, text[..n]) && MatchHere(re, text[n..])
    decreases |text|
  {
    if MatchStar(c, re, text) {
      if MatchHere(re, text) {
        assert text[0..] == text;
        assert StarRun(c, text[..0]);
      } else {
        var t' := text[1..];
        MatchStarRuns(c, re, t');
        var n :| 0 <= n <= |t'| && StarRun(c, t'[..n]) && MatchHere(re, t'[n..]);
        assert t'[n..] == text[n + 1..];
        var run, run' := text[..n + 1], t'[..n];
        assert StarRun(c, run) by {
          forall i | 0 <= i < |run|
            ensures run[i] == c || c == '.'
          {
            if i > 0 {
              assert run[i] == run'[i - 1];
            }
          }
        }
      }
    }
    if exists n :: 0 <= n <= |text| && StarRun(c, text[..n]) && MatchHere(re, text[n..]) {
      var n :| 0 <= n <= |text| && StarRun(c, text[..n]) && MatchHere(re, text[n..]);
      if n == 0 {
        assert text[0..] == text;
      } else {
        var t' := text[1..];
        assert text[..n][0] == text[0];
        assert t'[n - 1..] == text[n..];
        var run, run' := text[..n], t'[..n - 1];
        assert StarRun(c, run') by {
          forall i | 0 <= i < |run'|
            ensures run'[i] == c || c == '.'
          {
            assert run'[i] == run[i + 1];
          }
        }
        MatchStarRuns(c, re, t');
      }
    }
  }

  /** The unanchored search succeeds exactly when `re` matches at some
      suffix of `text`, the empty one included. */
  lemma {:induction false} MatchAnywhereSuffix(re: CString, text: CString)
    ensures MatchAnywhere(re, text) <==> exists i :: 0 <= i <= |text| && MatchHere(re, text[i..])
    decreases |text|
  {
    if MatchAnywhere(re, text) {
      if MatchHere(re, text) {
        assert text[0..] == text;
      } else {
        MatchAnywhereSuffix(re, text[1..]);
        var i :| 0 <= i <= |text| - 1 && MatchHere(re, text[1..][i..]);
        assert text[1..][i..] == text[i + 1..];
      }
    }
    if exists i :: 0 <= i <= |text| && MatchHere(re, text[i..]) {
      var i :| 0 <= i <= |text| && MatchHere(re, text[i..]);
      if i == 0 {
        assert text[0..] == text;
      } else {
        assert text[1..][i - 1..] == text[i..];
        MatchAnywhereSuffix(re, text[1..]);
      }
    }
  }

  /** match, stated on matchhere: with a leading `^` it is matchhere of the
      rest at the start of the text; otherwise it succeeds iff matchhere
      succeeds at some suffix, including the empty suffix at the end. */
  lemma MatchIsSuffixSearch(re: CString, text: CString)
    ensures |re| > 0 && re[0] == '^' ==> (Match(re, text) <==> MatchHere(re[1..], text))
    ensures !(|re| > 0 && re[0] == '^') ==>
      (Match(re, text) <==> exists i :: 0 <= i <= |text| && MatchHere(re, text[i..]))
  {
    MatchAnywhereSuffix(re, text);
  }

  /** No character of `lit` is special to matchhere. */
  predicate Literal(lit: CString)
  {
    '.' !in lit && '*' !in lit && '$' !in lit
  }

  /** A pattern of plain characters consumes exactly itself: matchhere
      succeeds iff the pattern is a prefix of the text. */
  lemma {:induction false} LiteralMatchesPrefix(lit: CString, text: CString)
    requires Literal(lit)
    ensures MatchHere(lit, text) <==> (|lit| <= |text| && text[..|lit|] == lit)
    decreases |lit|
  {
    if |lit| > 0 {
      assert lit[0] in lit;
      if |lit| >= 2 {
        assert lit[1] in lit;
      }
      if |text| > 0 {
        LiteralMatchesPrefix(lit[1..], text[1..]);
        if |lit| <= |text| && text[..|lit|] == lit {
          assert text[1..][..|lit| - 1] == lit[1..];
        }
        if |lit| - 1 <= |text| - 1 && text[1..][..|lit| - 1] == lit[1..] && text[0] == lit[0] {
          assert text[..|lit|] == [text[0]] + text[1..][..|lit| - 1];
          assert lit == [lit[0]] + lit[1..];
        }
      }
    }
  }
}
