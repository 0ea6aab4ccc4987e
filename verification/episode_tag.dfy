/**
 * The episode rewrite of `rename_season`: every non-overlapping match of
 * the pattern `- (\d+) \[(720P|1080P|4K)\]\[(Baha|Bilibili)\]`, scanned
 * left to right, becomes `- S<season>E<episode> [<resolution>][<source>]`.
 * The digit run is greedy and must be followed by a space, and no
 * alternative of a group is a prefix of another (they differ at the first
 * or second character), so a match at a given position is unique and no
 * backtracking is needed.
 */
module EpisodeTag {
  import opened Wrappers
  import PyText

  const Resolutions: seq<string> := ["720P", "1080P", "4K"]
  const Sources: seq<string> := ["Baha", "Bilibili"]

  /** The three groups of one match. */
  datatype Tag = Tag(episode: string, resolution: string, source: string)

  predicate WellFormed(tag: Tag) {
    && |tag.episode| > 0
    && PyText.AllDigits(tag.episode)
    && tag.resolution in Resolutions
    && tag.source in Sources
  }

  /** The text a match covers. */
  function Render(tag: Tag): string {
    "- " + tag.episode + " [" + tag.resolution + "][" + tag.source + "]"
  }

  /** The replacement text for a match, given the padded season number. */
  function Rewrite(tag: Tag, season: string): string {
    "- S" + season + "E" + tag.episode + " [" + tag.resolution + "][" + tag.source + "]"
  }

  /** The text after the literal `lit`, if `s` starts with it. */
  function Expect(s: string, lit: string): (r: Option<string>)
    ensures r.Some? ==> s == lit + r.value
    ensures r.Some? <==> |lit| <= |s| && s[..|lit|] == lit
  {
    if |lit| <= |s| && s[..|lit|] == lit then
      assert s == s[..|lit|] + s[|lit|..];
      Some(s[|lit|..])
    else None
  }

  /** Length of the run of digits at the start of `s`. */
  function DigitRun(s: string): (n: nat)
    decreases |s|
    ensures n <= |s|
    ensures PyText.AllDigits(s[..n])
    ensures n < |s| ==> !PyText.IsDigit(s[n])
  {
    if |s| > 0 && PyText.IsDigit(s[0]) then
      var n := 1 + DigitRun(s[1..]);
      assert s[..n] == [s[0]] + s[1..][..n - 1];
      n
    else 0
  }

  /** The first alternative, in pattern order, that `s` starts with. */
  function FirstAlternative(s: string, alts: seq<string>): (r: Option<string>)
    decreases |alts|
    ensures r.Some? ==> r.value in alts && |r.value| <= |s| && s == r.value + s[|r.value|..]
  {
    if |alts| == 0 then None
    else if |alts[0]| <= |s| && s[..|alts[0]|] == alts[0] then
      assert s == s[..|alts[0]|] + s[|alts[0]|..];
      Some(alts[0])
    else FirstAlternative(s, alts[1..])
  }

  /** The match at the beginning of `s`, with the text after it. */
  function MatchPrefix(s: string): (r: Option<(Tag, string)>)
    ensures r.Some? ==> WellFormed(r.value.0)
    ensures r.Some? ==> s == Spell(r.value.0, r.value.1)
  {
    var rest0 :- Expect(s, "- ");
    var n := DigitRun(rest0);
    if n == 0 then None
    else
      var episode := rest0[..n];
      assert rest0 == episode + rest0[n..];
      var rest1 :- Expect(rest0[n..], " [");
      var res :- FirstAlternative(rest1, Resolutions);
      var rest2 :- Expect(rest1[|res|..], "][");
      var src :- FirstAlternative(rest2, Sources);
      var rest3 :- Expect(rest2[|src|..], "]");
      Some((Tag(episode, res, src), rest3))
  }

  /** A rendered tag followed by `rest`, grouped as the matcher reads it. */
  function Spell(tag: Tag, rest: string): (r: string)
    ensures r == Render(tag) + rest
  {
    "- " + (tag.episode + (" [" + (tag.resolution + ("][" + (tag.source + ("]" + rest))))))
  }

  /** `re.sub(pattern, replacement, s)`. */
  function Sub(s: string, season: string): (r: string)
    decreases |s|
    ensures |r| >= |s|
    ensures DashSpaceFree(s) ==> r == s
  {
    if |s| == 0 then ""
    else
      match MatchPrefix(s)
      case Some((tag, rest)) =>
        assert s == Render(tag) + rest;
        assert s[0] == '-' && s[1] == ' ';
        Rewrite(tag, season) + Sub(rest, season)
      case None =>
        DashSpaceFreeDrop(s);
        assert [s[0]] + s[1..] == s;
        [s[0]] + Sub(s[1..], season)
  }

  /** Dropping the first character keeps a text free of `- `. */
  lemma DashSpaceFreeDrop(s: string)
    requires |s| > 0
    ensures DashSpaceFree(s) ==> DashSpaceFree(s[1..])
  {
    if DashSpaceFree(s) {
      forall i | 0 <= i < |s[1..]| - 1
        ensures !(s[1..][i] == '-' && s[1..][i + 1] == ' ')
      {
        assert s[1..][i] == s[i + 1] && s[1..][i + 1] == s[i + 2];
      }
    }
  }

  lemma {:induction false} DigitRunExact(digits: string, tail: string)
    requires PyText.AllDigits(digits)
    requires |tail| > 0 && !PyText.IsDigit(tail[0])
    ensures DigitRun(digits + tail) == |digits|
    decreases |digits|
  {
    if |digits| > 0 {
      assert (digits + tail)[1..] == digits[1..] + tail;
      DigitRunExact(digits[1..], tail);
    } else {
      assert digits + tail == tail;
    }
  }

  lemma ResolutionFound(res: string, tail: string)
    requires res in Resolutions
    ensures FirstAlternative(res + tail, Resolutions) == Some(res)
  {
    var s := res + tail;
    assert s[..|res|] == res;
    if res != "720P" {
      assert s[0] != '7';
      if res != "1080P" {
        assert s[0] != '1';
      }
    }
  }

  lemma SourceFound(src: string, tail: string)
    requires src in Sources
    ensures FirstAlternative(src + tail, Sources) == Some(src)
  {
    var s := src + tail;
    assert s[..|src|] == src;
    if src != "Baha" {
      assert s[1] != 'a';
    }
  }

  /** The pattern recognises every rendered tag, whatever follows it. */
  lemma MatchRender(tag: Tag, rest: string)
    requires WellFormed(tag)
    ensures MatchPrefix(Render(tag) + rest) == Some((tag, rest))
  {
    var ep := tag.episode;
    var res := tag.resolution;
    var src := tag.source;
    var rest2 := src + ("]" + rest);
    var rest1 := res + ("][" + rest2);
    var rest0 := ep + (" [" + rest1);
    var s := "- " + rest0;
    assert s == Spell(tag, rest) == Render(tag) + rest;
    assert Expect(s, "- ") == Some(rest0);
    DigitRunExact(ep, " [" + rest1);
    assert rest0[..|ep|] == ep;
    assert rest0[|ep|..] == " [" + rest1;
    assert Expect(rest0[|ep|..], " [") == Some(rest1);
    ResolutionFound(res, "][" + rest2);
    assert rest1[|res|..] == "][" + rest2;
    assert Expect(rest1[|res|..], "][") == Some(rest2);
    SourceFound(src, "]" + rest);
    assert rest2[|src|..] == "]" + rest;
    assert Expect(rest2[|src|..], "]") == Some(rest);
  }

  /** No `-` directly followed by a space anywhere in `s`. */
  predicate DashSpaceFree(s: string) {
    forall i :: 0 <= i < |s| - 1 ==> !(s[i] == '-' && s[i + 1] == ' ')
  }

  /** Text not starting with `- ` holds no match at its start. */
  lemma NoMatchWithoutDash(s: string)
    requires |s| < 2 || s[0] != '-' || s[1] != ' '
    ensures MatchPrefix(s).None?
  {
    assert Expect(s, "- ").None? by {
      if |s| >= 2 {
        assert s[..2][0] == s[0] && s[..2][1] == s[1];
      }
    }
  }

  /** Without a match at its start, the first character is copied. */
  lemma SubCopiesFirst(s: string, season: string)
    requires |s| > 0 && MatchPrefix(s).None?
    ensures Sub(s, season) == [s[0]] + Sub(s[1..], season)
  {
  }

  /** `a + t` cannot start with `- ` when `a` is free of it and does not end the pair. */
  lemma NoDashAtJoin(a: string, t: string)
    requires |a| > 0 && DashSpaceFree(a)
    requires |t| == 0 || !(a[|a| - 1] == '-' && t[0] == ' ')
    ensures |a + t| < 2 || (a + t)[0] != '-' || (a + t)[1] != ' '
  {
    var s := a + t;
    if |s| >= 2 {
      if |a| >= 2 {
        assert s[0] == a[0] && s[1] == a[1];
      } else {
        assert s[0] == a[0] && s[1] == t[0];
      }
    }
  }

  /** Dropping the first character keeps a text free of `- `. */
  lemma DashSpaceFreeTail(a: string, t: string)
    requires |a| > 0 && DashSpaceFree(a)
    requires |t| == 0 || !(a[|a| - 1] == '-' && t[0] == ' ')
    ensures DashSpaceFree(a[1..])
    ensures |a[1..]| == 0 || |t| == 0 || !(a[1..][|a[1..]| - 1] == '-' && t[0] == ' ')
    ensures (a + t)[1..] == a[1..] + t
  {
    var a' := a[1..];
    forall i | 0 <= i < |a'| - 1
      ensures !(a'[i] == '-' && a'[i + 1] == ' ')
    {
      assert a'[i] == a[i + 1] && a'[i + 1] == a[i + 2];
    }
  }

  lemma ConsJoin(a: string, x: string)
    requires |a| > 0
    ensures [a[0]] + (a[1..] + x) == a + x
  {
    assert [a[0]] + a[1..] == a;
  }

  /** Text before the first match is copied unchanged. */
  lemma {:induction false} SubPlainPrefix(a: string, t: string, season: string)
    requires DashSpaceFree(a)
    requires |a| == 0 || |t| == 0 || !(a[|a| - 1] == '-' && t[0] == ' ')
    ensures Sub(a + t, season) == a + Sub(t, season)
    decreases |a|
  {
    if |a| > 0 {
      NoDashAtJoin(a, t);
      NoMatchWithoutDash(a + t);
      SubCopiesFirst(a + t, season);
      DashSpaceFreeTail(a, t);
      SubPlainPrefix(a[1..], t, season);
      ConsJoin(a, Sub(t, season));
    } else {
      assert a + t == t;
    }
  }

  /**
   * The single-tag shape: text free of `- ` around one episode tag comes
   * back with only the tag rewritten.
   */
  lemma SubSingleTag(a: string, tag: Tag, b: string, season: string)
    requires WellFormed(tag) && DashSpaceFree(a) && DashSpaceFree(b)
    ensures Sub(a + Render(tag) + b, season) == a + Rewrite(tag, season) + b
  {
    var t := Render(tag) + b;
    assert a + Render(tag) + b == a + t;
    assert t[0] == '-';
    SubPlainPrefix(a, t, season);
    MatchRender(tag, b);
  }
}
