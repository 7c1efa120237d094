/** A declarative reading of the matcher's pattern syntax: a pattern denotes
    a sequence of items, each one character (`x` or `.`) or a starred run
    (`x*` or `.*`), optionally anchored at the end of the text by a final
    `$`. The matcher is proved to decide exactly this language. */
module PatternLanguage {
  import opened CStrings
  import opened Matcher

  datatype Atom = Lit(c: char) | AnyChar
  datatype Item = One(atom: Atom) | Many(atom: Atom)
  datatype Pattern = Pattern(items: seq<Item>, anchoredEnd: bool)

  /** `.` stands for any character, every other character for itself. */
  function AtomOf(c: char): Atom
  {
    if c == '.' then AnyChar else Lit(c)
  }

  predicate Accepts(a: Atom, x: char)
  {
    a.AnyChar? || a.c == x
  }

  function Prepend(it: Item, p: Pattern): Pattern
  {
    Pattern([it] + p.items, p.anchoredEnd)
  }

  /** Reads a pattern the way matchhere walks it: a character followed by
      `*` is a starred run, a lone final `$` anchors, anything else is one
      character. A leading `^` is not special here; `match` strips it. */
  function Parse(re: CString): Pattern
    decreases |re|
  {
    if |re| == 0 then Pattern([], false)
    else if |re| >= 2 && re[1] == '*' then Prepend(Many(AtomOf(re[0])), Parse(re[2..]))
    else if re == "$" then Pattern([], true)
    else Prepend(One(AtomOf(re[0])), Parse(re[1..]))
  }

  ghost predicate AllAccepted(a: Atom, run: seq<char>)
  {
    forall i :: 0 <= i < |run| ==> Accepts(a, run[i])
  }

  /** The whole of `w` is spelled by `items`. */
  ghost predicate InLang(items: seq<Item>, w: seq<char>)
    decreases |items|
  {
    if |items| == 0 then |w| == 0
    else match items[0]
      case One(a) => |w| > 0 && Accepts(a, w[0]) && InLang(items[1..], w[1..])
      case Many(a) => exists n :: 0 <= n <= |w| && AllAccepted(a, w[..n]) && InLang(items[1..], w[n..])
  }

  /** The first `k` characters of `text` are spelled by `p`, and an end
      anchor forces them to be the whole text. */
  ghost predicate MatchesPrefix(p: Pattern, text: seq<char>, k: int)
  {
    0 <= k <= |text| && InLang(p.items, text[..k]) && (p.anchoredEnd ==> k == |text|)
  }

  ghost predicate Denotes(p: Pattern, text: seq<char>)
  {
    exists k :: MatchesPrefix(p, text, k)
  }

  lemma StarRunAccepted(c: char, run: seq<char>)
    ensures StarRun(c, run) <==> AllAccepted(AtomOf(c), run)
  {
  }

  /** A final `$` is always the end anchor, and only a final `$` is one:
      the two-character `x*` steps can never swallow a last `$`. */
  lemma {:induction false} TrailingDollarAnchors(re: CString)
    ensures Parse(re).anchoredEnd <==> (|re| > 0 && re[|re| - 1] == '$')
    decreases |re|
  {
    if |re| == 0 {
    } else if |re| >= 2 && re[1] == '*' {
      TrailingDollarAnchors(re[2..]);
      if |re| == 2 {
        assert re[|re| - 1] == '*';
      } else {
        assert re[2..][|re| - 3] == re[|re| - 1];
      }
    } else if re == "$" {
    } else {
      TrailingDollarAnchors(re[1..]);
      if |re| > 1 {
        assert re[1..][|re| - 2] == re[|re| - 1];
      } else {
        assert re[0] != '$';
      }
    }
  }

  /** A pattern led by a starred item spells a prefix of the text iff some
      run of accepted characters is followed by a prefix the rest spells. */
  lemma DenotesMany(a: Atom, q: Pattern, text: seq<char>)
    ensures Denotes(Prepend(Many(a), q), text) <==>
      exists n :: 0 <= n <= |text| && AllAccepted(a, text[..n]) && Denotes(q, text[n..])
  {
    var p := Prepend(Many(a), q);
    assert p.items[0] == Many(a) && p.items[1..] == q.items;
    if Denotes(p, text) {
      var k :| MatchesPrefix(p, text, k);
      var w := text[..k];
      var n :| 0 <= n <= |w| && AllAccepted(a, w[..n]) && InLang(q.items, w[n..]);
      assert w[..n] == text[..n];
      assert w[n..] == text[n..][..k - n];
      assert MatchesPrefix(q, text[n..], k - n);
    }
    if exists n :: 0 <= n <= |text| && AllAccepted(a, text[..n]) && Denotes(q, text[n..]) {
      var n :| 0 <= n <= |text| && AllAccepted(a, text[..n]) && Denotes(q, text[n..]);
      var k' :| MatchesPrefix(q, text[n..], k');
      var k := n + k';
      assert text[..k][..n] == text[..n];
      assert text[..k][n..] == text[n..][..k'];
      assert InLang(p.items, text[..k]);
      assert MatchesPrefix(p, text, k);
    }
  }

  /** A pattern led by a one-character item spells a prefix of the text iff
      the first character is accepted and the rest spells a prefix of what
      follows. */
  lemma DenotesOne(a: Atom, q: Pattern, text: seq<char>)
    ensures Denotes(Prepend(One(a), q), text) <==>
      |text| > 0 && Accepts(a, text[0]) && Denotes(q, text[1..])
  {
    var p := Prepend(One(a), q);
    assert p.items[0] == One(a) && p.items[1..] == q.items;
    if Denotes(p, text) {
      var k :| MatchesPrefix(p, text, k);
      assert text[..k][1..] == text[1..][..k - 1];
      assert MatchesPrefix(q, text[1..], k - 1);
    }
    if |text| > 0 && Accepts(a, text[0]) && Denotes(q, text[1..]) {
      var k' :| MatchesPrefix(q, text[1..], k');
      assert text[..k' + 1][1..] == text[1..][..k'];
      assert MatchesPrefix(p, text, k' + 1);
    }
  }

  /** matchhere decides the language: it succeeds exactly when some prefix
      of the text is spelled by the parsed pattern (the whole text, when
      the pattern ends in `$`). */
  lemma {:induction false} MatchHereDenotes(re: CString, text: CString)
    ensures MatchHere(re, text) <==> Denotes(Parse(re), text)
    decreases |re|
  {
    var p := Parse(re);
    if |re| == 0 {
      assert MatchesPrefix(p, text, 0);
    } else if |re| >= 2 && re[1] == '*' {
      var re' := re[2..];
      MatchStarRuns(re[0], re', text);
      DenotesMany(AtomOf(re[0]), Parse(re'), text);
      forall n | 0 <= n <= |text|
        ensures StarRun(re[0], text[..n]) <==> AllAccepted(AtomOf(re[0]), text[..n])
        ensures MatchHere(re', text[n..]) <==> Denotes(Parse(re'), text[n..])
      {
        StarRunAccepted(re[0], text[..n]);
        MatchHereDenotes(re', text[n..]);
      }
    } else if re == "$" {
      if |text| == 0 {
        assert MatchesPrefix(p, text, 0);
      }
    } else {
      DenotesOne(AtomOf(re[0]), Parse(re[1..]), text);
      if |text| > 0 {
        MatchHereDenotes(re[1..], text[1..]);
      }
    }
  }

  /** The pattern body `match` hands to matchhere: without its leading `^`. */
  function Body(re: CString): CString
  {
    if |re| > 0 && re[0] == '^' then re[1..] else re
  }

  /** match decides the search problem: some suffix of the text, starting
      at the very beginning when the pattern begins with `^`, has a prefix
      spelled by the pattern body. */
  lemma MatchDenotes(re: CString, text: CString)
    ensures Match(re, text) <==>
      exists i :: 0 <= i <= |text| && (|re| > 0 && re[0] == '^' ==> i == 0)
                  && Denotes(Parse(Body(re)), text[i..])
  {
    MatchIsSuffixSearch(re, text);
    forall i | 0 <= i <= |text|
      ensures MatchHere(Body(re), text[i..]) <==> Denotes(Parse(Body(re)), text[i..])
    {
      MatchHereDenotes(Body(re), text[i..]);
    }
    assert text[0..] == text;
  }
}
