/** Properties of the StringUtils model that relate several calls or state
    what the library's documentation promises. */
module StringUtilsProperties {
  import opened JavaLib
  import opened StringUtils

  // ---------------------------------------------------------------------------
  // Blank and default helpers
  // ---------------------------------------------------------------------------

  /** safe(str) is "" exactly for the blank strings, and safe(str) is
      safe(str, "") with the null case filled in. */
  lemma SafeMatchesBlank(str: Option<string>)
    ensures IsBlank(str) <==> Safe(str) == ""
    ensures SafeOr(str, Some("")) == Some(Safe(str))
  {
  }

  // ---------------------------------------------------------------------------
  // Joining
  // ---------------------------------------------------------------------------

  /** Zero tokens join to "" and one token joins to itself. */
  lemma JoinFewTokens(delimiter: string, t: string)
    ensures Join(delimiter, []) == ""
    ensures Join(delimiter, [t]) == t
  {
  }

  /** The joined text has every character of the tokens plus one delimiter
      per gap between consecutive tokens. */
  lemma {:induction false} JoinLength(delimiter: string, tokens: seq<string>)
    requires tokens != []
    ensures |Join(delimiter, tokens)| == TotalLength(tokens) + (|tokens| - 1) * |delimiter|
  {
    if |tokens| > 1 {
      JoinLength(delimiter, tokens[1..]);
    }
  }

  /** No leading or trailing delimiter: the joined text starts with the first
      token and ends with the last one. */
  lemma {:induction false} JoinEnds(delimiter: string, tokens: seq<string>)
    requires tokens != []
    ensures StartsWith(Join(delimiter, tokens), tokens[0])
    ensures EndsWith(Join(delimiter, tokens), tokens[|tokens| - 1])
  {
    if |tokens| > 1 {
      var rest := Join(delimiter, tokens[1..]);
      JoinEnds(delimiter, tokens[1..]);
      var whole := tokens[0] + delimiter + rest;
      var last := tokens[|tokens| - 1];
      assert whole[|whole| - |last|..] == rest[|rest| - |last|..];
    }
  }

  /** Between the tokens before index `i` and the tokens from `i` on there is
      exactly one delimiter, with token `i - 1` right before it and token `i`
      right after it. */
  lemma JoinBetween(delimiter: string, tokens: seq<string>, i: nat)
    requires 0 < i < |tokens|
    ensures Join(delimiter, tokens) == Join(delimiter, tokens[..i]) + delimiter + Join(delimiter, tokens[i..])
    ensures EndsWith(Join(delimiter, tokens[..i]), tokens[i - 1])
    ensures StartsWith(Join(delimiter, tokens[i..]), tokens[i])
  {
    assert tokens == tokens[..i] + tokens[i..];
    JoinAppend(delimiter, tokens[..i], tokens[i..]);
    JoinEnds(delimiter, tokens[..i]);
    JoinEnds(delimiter, tokens[i..]);
  }

  // ---------------------------------------------------------------------------
  // Line counting
  // ---------------------------------------------------------------------------

  /** Lines without line feeds joined by "\n" hold one line feed fewer than
      there are lines. So when the joined text is not empty, linesCount of it
      (one more than its line feeds) is the number of lines; for the single
      line "" the text is empty and linesCount gives 0. */
  lemma {:induction false} LineFeedsOfJoinedLines(lines: seq<string>)
    requires lines != []
    requires forall l :: l in lines ==> '\n' !in l
    ensures multiset(Join("\n", lines))['\n'] == |lines| - 1
    ensures Join("\n", lines) != "" ==> 1 + multiset(Join("\n", lines))['\n'] == |lines|
  {
    if |lines| == 1 {
      assert lines[0] in lines;
    } else {
      assert lines[0] in lines;
      assert forall l :: l in lines[1..] ==> l in lines;
      LineFeedsOfJoinedLines(lines[1..]);
    }
  }

  // ---------------------------------------------------------------------------
  // Replacement
  // ---------------------------------------------------------------------------

  /** With an empty pattern every search from `from` finds the pattern at
      `from` itself, so `patIdx = idx + pattern.length()` never advances. */
  lemma EmptyPatternMakesNoProgress(s: string, from: nat)
    requires from <= |s|
    ensures IndexOf(s, "", from) == from
  {
    assert OccursAt(s, "", from);
  }

  /** An occurrence inside a slice is an occurrence in the whole string. */
  lemma OccursInSlice(s: string, p: string, i: nat, j: nat, k: int)
    requires i <= j <= |s| && OccursAt(s[i..j], p, k)
    ensures OccursAt(s, p, i + k)
  {
    forall t | 0 <= t < |p| ensures s[i + k + t] == p[t] {
      assert s[i..j][k..k + |p|][t] == p[t];
    }
    assert s[i + k..i + k + |p|] == p;
  }

  /** Joining the pieces with the pattern itself rebuilds the text: the
      pieces are exactly the text cut at the occurrences. */
  lemma {:induction false} PiecesRejoin(s: string, p: string, from: nat)
    requires |p| > 0 && from <= |s|
    ensures Join(p, Pieces(s, p, from)) == s[from..]
    decreases |s| - from
  {
    var idx := IndexOf(s, p, from);
    IndexOfIsLeftmost(s, p, from);
    if idx != -1 {
      var next := idx + |p|;
      PiecesRejoin(s, p, next);
      JoinCons(p, s[from..idx], Pieces(s, p, next));
      assert s[from..] == s[from..idx] + s[idx..next] + s[next..];
    }
  }

  /** No piece contains the pattern: every occurrence is a cut. */
  lemma {:induction false} PiecesAvoidPattern(s: string, p: string, from: nat)
    requires |p| > 0 && from <= |s|
    ensures forall t :: t in Pieces(s, p, from) ==> !Contains(t, p)
    decreases |s| - from
  {
    var idx := IndexOf(s, p, from);
    IndexOfIsLeftmost(s, p, from);
    if idx == -1 {
      assert s[from..] == s[from..|s|];
      forall k | OccursAt(s[from..], p, k) ensures false {
        OccursInSlice(s, p, from, |s|, k);
      }
    } else {
      forall k | OccursAt(s[from..idx], p, k) ensures false {
        OccursInSlice(s, p, from, idx, k);
      }
      PiecesAvoidPattern(s, p, idx + |p|);
    }
  }

  /** The first piece is the text before the first occurrence. */
  lemma FirstPiece(s: string, p: string, k: nat)
    requires |p| > 0 && FirstOccurrence(s, p, k)
    ensures Pieces(s, p, 0)[0] == s[..k]
  {
    IndexOfFromStart(s, p);
    var idx := IndexOf(s, p, 0);
    assert idx != -1;
    assert !(idx < k) && !(k < idx);
  }

  /** replaceAll with a pattern that does not occur returns the source. */
  lemma ReplaceAllWithoutMatch(s: string, pattern: string, replacement: string)
    requires |pattern| > 0 && !Contains(s, pattern)
    ensures Join(replacement, Pieces(s, pattern, 0)) == s
  {
    IndexOfFromStart(s, pattern);
  }

  /** replaceAll with the pattern as its own replacement returns the source. */
  lemma ReplaceAllWithItself(s: string, pattern: string)
    requires |pattern| > 0
    ensures Join(pattern, Pieces(s, pattern, 0)) == s
  {
    PiecesRejoin(s, pattern, 0);
  }

  /** Each of the |pieces| - 1 replacements changes the length by
      |replacement| - |pattern|. */
  lemma ReplaceAllLength(s: string, pattern: string, replacement: string)
    requires |pattern| > 0
    ensures |Join(replacement, Pieces(s, pattern, 0))|
         == |s| + (|Pieces(s, pattern, 0)| - 1) * (|replacement| - |pattern|)
  {
    var pieces := Pieces(s, pattern, 0);
    PiecesRejoin(s, pattern, 0);
    JoinLength(pattern, pieces);
    JoinLength(replacement, pieces);
    var n := |pieces| - 1;
    assert n * (|replacement| - |pattern|) == n * |replacement| - n * |pattern|;
  }

  // ---------------------------------------------------------------------------
  // Prefix removal
  // ---------------------------------------------------------------------------

  /** What removeBefore drops is the text up to and including the first
      occurrence of the marker. */
  lemma RemoveBeforeRecovers(s: string, marker: string, k: nat)
    requires FirstOccurrence(s, marker, k)
    ensures s == s[..k] + marker + RemoveBefore(Some(s), marker).value
  {
    assert s == s[..k] + s[k..k + |marker|] + s[k + |marker|..];
  }

  // ---------------------------------------------------------------------------
  // Splitting
  // ---------------------------------------------------------------------------

  /** For a non-empty text and delimiter: split keeps a prefix of the scanned
      tokens and drops only empty ones; when the delimiter occurs, the
      scanned tokens joined by the delimiter are the text, and none of them
      contains the delimiter. */
  lemma SplitDelimited(str: string, delimiter: string)
    requires |str| > 0 && |delimiter| > 0
    ensures var scanned := Scanned(str, delimiter);
      var tokens := SplitTokens(str, delimiter);
      |tokens| <= |scanned| && tokens == scanned[..|tokens|] &&
      (forall i :: |tokens| <= i < |scanned| ==> scanned[i] == "")
    ensures Contains(str, delimiter) ==> Join(delimiter, Scanned(str, delimiter)) == str
    ensures forall t :: t in Scanned(str, delimiter) ==> !Contains(t, delimiter)
  {
    PiecesAvoidPattern(str, delimiter, 0);
    if Contains(str, delimiter) {
      var k :| OccursAt(str, delimiter, k);
      PiecesRejoin(str, delimiter, 0);
    }
  }

  /** `m` copies of `d` back to back. */
  function Repeat(d: string, m: nat): (r: string)
    ensures |r| == m * |d|
  {
    if m == 0 then "" else Repeat(d, m - 1) + d
  }

  /** `m` empty tokens. */
  function Empties(m: nat): (r: seq<string>)
    ensures |r| == m && forall i :: 0 <= i < m ==> r[i] == ""
  {
    seq(m, i => "")
  }

  lemma {:induction false} JoinTrailingEmpties(delimiter: string, tokens: seq<string>, m: nat)
    requires tokens != []
    ensures Join(delimiter, tokens + Empties(m)) == Join(delimiter, tokens) + Repeat(delimiter, m)
  {
    if m > 0 {
      JoinTrailingEmpties(delimiter, tokens, m - 1);
      assert tokens + Empties(m) == (tokens + Empties(m - 1)) + [""];
      JoinAppend(delimiter, tokens + Empties(m - 1), [""]);
      calc {
        Join(delimiter, tokens + Empties(m));
        Join(delimiter, tokens + Empties(m - 1)) + delimiter + Join(delimiter, [""]);
        Join(delimiter, tokens) + Repeat(delimiter, m - 1) + delimiter;
        Join(delimiter, tokens) + Repeat(delimiter, m);
      }
    } else {
      assert tokens + Empties(0) == tokens;
    }
  }

  lemma {:induction false} JoinOnlyEmpties(delimiter: string, m: nat)
    requires m > 0
    ensures Join(delimiter, Empties(m)) == Repeat(delimiter, m - 1)
  {
    if m > 1 {
      JoinOnlyEmpties(delimiter, m - 1);
      assert Empties(m) == Empties(m - 1) + [""];
      JoinAppend(delimiter, Empties(m - 1), [""]);
      assert Join(delimiter, [""]) == "";
    }
  }

  /** Joining split's tokens with the delimiter gives back the text up to the
      trailing delimiters whose empty tokens were dropped: the text is the
      joined tokens followed by `m` delimiters, or, when every token was
      empty, nothing but delimiters. */
  lemma SplitThenJoin(str: string, delimiter: string) returns (m: nat)
    requires |str| > 0 && |delimiter| > 0 && Contains(str, delimiter)
    ensures var tokens := SplitTokens(str, delimiter);
      str == if tokens == [] then Repeat(delimiter, m) else Join(delimiter, tokens) + Repeat(delimiter, m)
  {
    SplitDelimited(str, delimiter);
    var scanned := Scanned(str, delimiter);
    var tokens := SplitTokens(str, delimiter);
    var dropped := |scanned| - |tokens|;
    assert scanned == tokens + Empties(dropped);
    if tokens == [] {
      JoinOnlyEmpties(delimiter, dropped);
      m := dropped - 1;
    } else {
      JoinTrailingEmpties(delimiter, tokens, dropped);
      m := dropped;
    }
  }

  /** A mismatching character rules out an occurrence. */
  lemma Mismatch(s: string, p: string, k: nat, t: nat)
    requires t < |p| && k + t < |s| && s[k + t] != p[t]
    ensures !OccursAt(s, p, k)
  {
  }

  /** The two examples the library documents first for split: a leading
      empty token is kept, a trailing one is dropped. */
  lemma SplitExamples()
    ensures SplitTokens("asdf", "as") == ["", "df"]
    ensures SplitTokens("asdf", "df") == ["as"]
  {
    assert OccursAt("asdf", "as", 0);
    Mismatch("asdf", "as", 2, 0);
    assert Pieces("asdf", "as", 2) == ["df"];
    assert Pieces("asdf", "as", 0) == ["", "df"];

    Mismatch("asdf", "df", 0, 0);
    Mismatch("asdf", "df", 1, 0);
    assert OccursAt("asdf", "df", 2);
    assert IndexOf("asdf", "df", 4) == -1 && "asdf"[4..] == "";
    assert Pieces("asdf", "df", 4) == [""];
    assert Pieces("asdf", "df", 0) == ["as", ""];
  }

  /** The "extreme" examples the library documents for split, and a
      delimiter that does not occur. */
  lemma SplitEdgeExamples()
    ensures SplitTokens("", "") == []
    ensures SplitTokens("", "s") == []
    ensures SplitTokens("s", "") == ["s"]
    ensures SplitTokens("sss", "") == ["s", "s", "s"]
    ensures SplitTokens("s", "s") == []
    ensures SplitTokens("sss", "sss") == []
    ensures SplitTokens("abc", "x") == []
  {
    assert OccursAt("s", "s", 0);
    assert IndexOf("s", "s", 1) == -1 && "s"[1..] == "";
    assert Pieces("s", "s", 1) == [""];
    assert Pieces("s", "s", 0) == ["", ""];

    assert OccursAt("sss", "sss", 0);
    assert IndexOf("sss", "sss", 3) == -1 && "sss"[3..] == "";
    assert Pieces("sss", "sss", 3) == [""];
    assert Pieces("sss", "sss", 0) == ["", ""];

    assert SplitTokens("sss", "") == ["s", "s", "s"];
    assert !Contains("abc", "x") by {
      forall k | OccursAt("abc", "x", k) ensures false {
        Mismatch("abc", "x", k, 0);
      }
    }
  }

  // ---------------------------------------------------------------------------
  // Human-readable rendering
  // ---------------------------------------------------------------------------

  /** Different strings-or-null render differently: null is the bare word,
      a string is quoted. */
  lemma HumanReadableInjective(a: Option<string>, b: Option<string>)
    requires ToHumanReadableString(a) == ToHumanReadableString(b)
    ensures a == b
  {
    if a.Some? && b.Some? {
      var r := ToHumanReadableString(a);
      assert a.value == r[1..|r| - 1] == b.value;
    }
  }

  /** The documented examples of arrayToString. */
  lemma ArrayToStringExamples()
    ensures "[" + Join(", ", Rendered([Some("a"), Some("b")])) + "]" == "[\"a\", \"b\"]"
    ensures "[" + Join(", ", Rendered([Some("a"), None])) + "]" == "[\"a\", null]"
    ensures "[" + Join(", ", Rendered([Some("")])) + "]" == "[\"\"]"
  {
    assert ToHumanReadableString(Some("a")) == "\"a\"";
    assert ToHumanReadableString(Some("b")) == "\"b\"";
    assert ToHumanReadableString(Some("")) == "\"\"";
    assert Rendered([Some("a"), Some("b")]) == ["\"a\"", "\"b\""];
    assert Rendered([Some("a"), None]) == ["\"a\"", "null"];
    assert Rendered([Some("")]) == ["\"\""];
    JoinCons(", ", "\"a\"", ["\"b\""]);
    JoinCons(", ", "\"a\"", ["null"]);
  }

  /** Nothing is escaped, so two different arrays can render the same:
      one element `a", "b` and the two elements `a` and `b`. */
  lemma ArrayRenderingIsAmbiguous()
    ensures Join(", ", Rendered([Some("a\", \"b")])) == Join(", ", Rendered([Some("a"), Some("b")]))
  {
    assert ToHumanReadableString(Some("a")) == "\"a\"";
    assert ToHumanReadableString(Some("b")) == "\"b\"";
    assert ToHumanReadableString(Some("a\", \"b")) == "\"a\", \"b\"";
    assert Rendered([Some("a\", \"b")]) == ["\"a\", \"b\""];
    assert Rendered([Some("a"), Some("b")]) == ["\"a\"", "\"b\""];
    JoinCons(", ", "\"a\"", ["\"b\""]);
  }
}
