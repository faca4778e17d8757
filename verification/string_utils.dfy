/** The string helpers of com.cleverua.bb.utils.StringUtils. A Java `null`
    string is `None`; a string, token or array element `s` is `Some(s)`.
    Operations that the library writes as loops are methods proved against the
    specification functions defined here; the one-expression helpers are
    functions. */
module StringUtils {
  import opened JavaLib

  // ---------------------------------------------------------------------------
  // Blank and default helpers
  // ---------------------------------------------------------------------------

  function IsBlank(str: Option<string>): (blank: bool)
    ensures blank <==> str == None || str == Some("")
  {
    str.None? || |str.value| == 0
  }

  function IsNotBlank(str: Option<string>): (notBlank: bool)
    ensures notBlank <==> str.Some? && |str.value| > 0
  {
    !IsBlank(str)
  }

  /** safe(String): the string itself, or "" for null. */
  function Safe(str: Option<string>): (r: string)
    ensures str.Some? ==> r == str.value
    ensures str.None? ==> r == ""
  {
    if str.None? then "" else str.value
  }

  /** safe(String, String): the string itself, or the default for null. */
  function SafeOr(str: Option<string>, defaultValue: Option<string>): (r: Option<string>)
    ensures str.Some? ==> r == str
    ensures str.None? ==> r == defaultValue
  {
    if str.None? then defaultValue else str
  }

  // ---------------------------------------------------------------------------
  // Line counting
  // ---------------------------------------------------------------------------

  /** No `c` between indices `i` and `j` leaves the count of `c` in the prefix unchanged. */
  lemma CountUnchangedWithout(s: string, c: char, i: nat, j: nat)
    requires i <= j <= |s|
    requires forall k :: i <= k < j ==> s[k] != c
    ensures multiset(s[..j])[c] == multiset(s[..i])[c]
  {
    assert s[..j] == s[..i] + s[i..j];
    assert c !in s[i..j];
  }

  /** linesCount: 0 for "", otherwise one more than the number of line feeds. */
  method LinesCount(str: string) returns (result: nat)
    ensures result == if |str| == 0 then 0 else 1 + multiset(str)['\n']
  {
    if |str| == 0 {
      return 0;
    }
    result := 1;
    var indx := IndexOfChar(str, '\n', 0);
    if indx == -1 {
      CountUnchangedWithout(str, '\n', 0, |str|);
      assert str[..|str|] == str;
    } else {
      CountUnchangedWithout(str, '\n', 0, indx);
    }
    while indx != -1
      invariant -1 <= indx < |str|
      invariant indx == -1 ==> result == 1 + multiset(str)['\n']
      invariant indx != -1 ==> str[indx] == '\n' && result == 1 + multiset(str[..indx])['\n']
      decreases if indx == -1 then 0 else |str| - indx
    {
      assert str[..indx + 1] == str[..indx] + [str[indx]];
      indx, result := indx + 1, result + 1;
      var next := IndexOfChar(str, '\n', indx);
      if next == -1 {
        CountUnchangedWithout(str, '\n', indx, |str|);
        assert str[..|str|] == str;
      } else {
        CountUnchangedWithout(str, '\n', indx, next);
      }
      indx := next;
    }
  }

  // ---------------------------------------------------------------------------
  // Joining
  // ---------------------------------------------------------------------------

  /** Total number of characters in the tokens. */
  function TotalLength(tokens: seq<string>): nat {
    if tokens == [] then 0 else |tokens[0]| + TotalLength(tokens[1..])
  }

  /** The tokens with `delimiter` strictly between consecutive ones. */
  function Join(delimiter: string, tokens: seq<string>): string {
    if |tokens| == 0 then ""
    else if |tokens| == 1 then tokens[0]
    else tokens[0] + delimiter + Join(delimiter, tokens[1..])
  }

  lemma JoinCons(delimiter: string, t: string, rest: seq<string>)
    requires rest != []
    ensures Join(delimiter, [t] + rest) == t + delimiter + Join(delimiter, rest)
  {
    assert ([t] + rest)[1..] == rest;
  }

  /** Joining two non-empty runs of tokens puts one delimiter between them. */
  lemma {:induction false} JoinAppend(delimiter: string, a: seq<string>, b: seq<string>)
    requires a != [] && b != []
    ensures Join(delimiter, a + b) == Join(delimiter, a) + delimiter + Join(delimiter, b)
  {
    if |a| == 1 {
      JoinCons(delimiter, a[0], b);
      assert a + b == [a[0]] + b;
    } else {
      JoinAppend(delimiter, a[1..], b);
      JoinCons(delimiter, a[0], a[1..] + b);
      assert a + b == [a[0]] + (a[1..] + b);
      assert a == [a[0]] + a[1..];
    }
  }

  /** The text StringBuffer.append(Object) adds for each token. */
  function ValuesOf(tokens: seq<Option<string>>): (r: seq<string>)
    ensures |r| == |tokens|
  {
    seq(|tokens|, i requires 0 <= i < |tokens| => ValueOf(tokens[i]))
  }

  /** Appending one more token's text: a separator first unless it is the
      first token. */
  lemma JoinValuesSnoc(separator: string, taken: seq<Option<string>>, token: Option<string>)
    ensures Join(separator, ValuesOf(taken + [token]))
         == (if taken == [] then "" else Join(separator, ValuesOf(taken)) + separator) + ValueOf(token)
  {
    assert ValuesOf(taken + [token]) == ValuesOf(taken) + [ValueOf(token)];
    if taken != [] {
      JoinAppend(separator, ValuesOf(taken), [ValueOf(token)]);
    }
  }

  /** join(String, Object[]). A null delimiter is appended as "null". */
  method JoinArray(delimiter: Option<string>, tokens: array<Option<string>>) returns (r: string)
    ensures r == Join(ValueOf(delimiter), ValuesOf(tokens[..]))
  {
    var separator := ValueOf(delimiter);
    var sb := "";
    var firstTime := true;
    var len := tokens.Length;
    for i := 0 to len
      invariant firstTime <==> i == 0
      invariant sb == Join(separator, ValuesOf(tokens[..i]))
    {
      var token := tokens[i];
      assert tokens[..i + 1] == tokens[..i] + [token];
      JoinValuesSnoc(separator, tokens[..i], token);
      if firstTime {
        firstTime := false;
      } else {
        sb := sb + separator;
      }
      sb := sb + ValueOf(token);
    }
    assert tokens[..len] == tokens[..];
    r := sb;
  }

  /** join(String, Enumeration): consumes the enumeration. A null delimiter
      is appended as "null". */
  method JoinEnumeration(delimiter: Option<string>, tokens: Enumeration) returns (r: string)
    requires tokens.Valid()
    modifies tokens
    ensures tokens.Valid() && tokens.Remaining() == []
    ensures r == Join(ValueOf(delimiter), ValuesOf(old(tokens.Remaining())))
  {
    var separator := ValueOf(delimiter);
    ghost var all := tokens.Remaining();
    ghost var taken: seq<Option<string>> := [];
    var sb := "";
    var firstTime := true;
    var more := tokens.HasMoreElements();
    while more
      invariant tokens.Valid()
      invariant taken + tokens.Remaining() == all
      invariant more <==> tokens.Remaining() != []
      invariant firstTime <==> taken == []
      invariant sb == Join(separator, ValuesOf(taken))
      decreases |tokens.Remaining()|
    {
      ghost var rest := tokens.Remaining();
      var token := tokens.NextElement();
      assert rest == [token] + tokens.Remaining();
      assert (taken + [token]) + tokens.Remaining() == taken + rest;
      JoinValuesSnoc(separator, taken, token);
      if firstTime {
        firstTime := false;
      } else {
        sb := sb + separator;
      }
      sb := sb + ValueOf(token);
      taken := taken + [token];
      more := tokens.HasMoreElements();
    }
    assert taken == all;
    r := sb;
  }

  // ---------------------------------------------------------------------------
  // Replacement
  // ---------------------------------------------------------------------------

  /** The segments of `s[from..]` between the leftmost non-overlapping
      occurrences of `p`, followed by the remainder after the last one. */
  function Pieces(s: string, p: string, from: nat): (pieces: seq<string>)
    requires |p| > 0 && from <= |s|
    ensures pieces != []
    decreases |s| - from
  {
    var idx := IndexOf(s, p, from);
    if idx == -1 then [s[from..]]
    else [s[from..idx]] + Pieces(s, p, idx + |p|)
  }

  /** Moving the next piece from the pieces still to scan to those already
      scanned keeps their concatenation. */
  lemma PiecesStep(s: string, p: string, from: nat, done: seq<string>)
    requires |p| > 0 && from <= |s| && IndexOf(s, p, from) != -1
    ensures var idx := IndexOf(s, p, from);
      done + Pieces(s, p, from) == (done + [s[from..idx]]) + Pieces(s, p, idx + |p|)
  {
    var idx := IndexOf(s, p, from);
    var rest := Pieces(s, p, idx + |p|);
    assert Pieces(s, p, from) == [s[from..idx]] + rest;
    assert done + ([s[from..idx]] + rest) == (done + [s[from..idx]]) + rest;
  }

  /** Each token followed by the separator: what replaceAll has appended
      once it has replaced the occurrences that end those tokens. */
  function Terminated(separator: string, tokens: seq<string>): string {
    if tokens == [] then ""
    else Terminated(separator, tokens[..|tokens| - 1]) + tokens[|tokens| - 1] + separator
  }

  /** Joining tokens puts the separator after every token but the last. */
  lemma {:induction false} JoinAsTerminated(separator: string, tokens: seq<string>, last: string)
    ensures Join(separator, tokens + [last]) == Terminated(separator, tokens) + last
  {
    if tokens != [] {
      var init := tokens[..|tokens| - 1];
      JoinAsTerminated(separator, init, tokens[|tokens| - 1]);
      assert init + [tokens[|tokens| - 1]] == tokens;
      JoinAppend(separator, tokens, [last]);
    }
  }

  /** replaceAll: every non-overlapping leftmost occurrence of `pattern`
      replaced by `replacement` (by "null" when it is null); "" for a null
      source. */
  method ReplaceAll(source: Option<string>, pattern: string, replacement: Option<string>) returns (r: string)
    requires source.Some? ==> |pattern| > 0
    ensures source.None? ==> r == ""
    ensures source.Some? ==> r == Join(ValueOf(replacement), Pieces(source.value, pattern, 0))
  {
    if source.None? {
      return "";
    }
    var s := source.value;
    assert |pattern| > 0;
    var text := ValueOf(replacement);
    var sb := "";
    var patIdx := 0;
    ghost var done: seq<string> := [];
    var idx := IndexOf(s, pattern, patIdx);
    while idx != -1
      invariant |pattern| > 0 && 0 <= patIdx <= |s|
      invariant idx == IndexOf(s, pattern, patIdx)
      invariant done + Pieces(s, pattern, patIdx) == Pieces(s, pattern, 0)
      invariant sb == Terminated(text, done)
      decreases |s| - patIdx
    {
      PiecesStep(s, pattern, patIdx, done);
      assert (done + [s[patIdx..idx]])[..|done|] == done;
      sb := sb + s[patIdx..idx];
      sb := sb + text;
      done := done + [s[patIdx..idx]];
      patIdx := idx + |pattern|;
      idx := IndexOf(s, pattern, patIdx);
    }
    JoinAsTerminated(text, done, s[patIdx..]);
    r := sb + s[patIdx..];
  }

  // ---------------------------------------------------------------------------
  // Prefix removal
  // ---------------------------------------------------------------------------

  /** removeBefore: the part of `str` after the first occurrence of `marker`;
      `str` itself when it is null or does not contain `marker`. */
  function RemoveBefore(str: Option<string>, marker: string): (r: Option<string>)
    ensures str.None? ==> r == None
    ensures str.Some? ==> r.Some? && EndsWith(str.value, r.value)
    ensures str.Some? && !Contains(str.value, marker) ==> r == str
    ensures str.Some? ==> forall k :: FirstOccurrence(str.value, marker, k) ==> r == Some(str.value[k + |marker|..])
    ensures marker == "" ==> r == str
  {
    if str.None? then str
    else
      IndexOfFromStart(str.value, marker);
      var index := IndexOf(str.value, marker, 0);
      if index == -1 then str
      else Some(str.value[index + |marker|..])
  }

  // ---------------------------------------------------------------------------
  // Splitting
  // ---------------------------------------------------------------------------

  /** One single-character token per character of `str`, in order. */
  function Chars(str: string): (tokens: seq<string>)
    ensures |tokens| == |str|
  {
    seq(|str|, i requires 0 <= i < |str| => [str[i]])
  }

  /** The tokens the scan of split accumulates for a non-empty delimiter:
      nothing when the delimiter never occurs, otherwise all the pieces. */
  function Scanned(str: string, delimiter: string): seq<string>
    requires |delimiter| > 0
  {
    if IndexOf(str, delimiter, 0) == -1 then [] else Pieces(str, delimiter, 0)
  }

  /** The tokens with every trailing empty token removed: the longest prefix
      that is empty or ends in a non-empty token, dropping only "" tokens. */
  function DropTrailingEmpty(tokens: seq<string>): (kept: seq<string>)
    ensures |kept| <= |tokens| && kept == tokens[..|kept|]
    ensures kept == [] || kept[|kept| - 1] != ""
    ensures forall i :: |kept| <= i < |tokens| ==> tokens[i] == ""
  {
    if tokens == [] then []
    else if tokens[|tokens| - 1] == "" then DropTrailingEmpty(tokens[..|tokens| - 1])
    else tokens
  }

  /** The result of split(str, delimiter). */
  function SplitTokens(str: string, delimiter: string): (tokens: seq<string>)
    ensures |str| == 0 ==> tokens == []
    ensures |str| > 0 && |delimiter| == 0 ==>
      |tokens| == |str| && forall i :: 0 <= i < |str| ==> tokens[i] == [str[i]]
    ensures |delimiter| > 0 && !Contains(str, delimiter) ==> tokens == []
    ensures tokens == [] || tokens[|tokens| - 1] != ""
  {
    if |str| == 0 then []
    else if |delimiter| == 0 then Chars(str)
    else
      IndexOfFromStart(str, delimiter);
      DropTrailingEmpty(Scanned(str, delimiter))
  }

  /** The kept prefix is the one that ends in a non-empty token and is
      followed only by empty tokens. */
  lemma DropTrailingEmptyIs(tokens: seq<string>, n: nat)
    requires n <= |tokens|
    requires n == 0 || tokens[n - 1] != ""
    requires forall j :: n <= j < |tokens| ==> tokens[j] == ""
    ensures DropTrailingEmpty(tokens) == tokens[..n]
  {
  }

  /** split. */
  method Split(str: string, delimiter: string) returns (tokens: seq<string>)
    ensures tokens == SplitTokens(str, delimiter)
  {
    var strLen := |str|;
    if strLen == 0 {
      return [];
    }

    var delimiterLen := |delimiter|;
    if delimiterLen == 0 {
      var chars := new string[strLen];
      for i := 0 to strLen
        invariant forall j :: 0 <= j < i ==> chars[j] == [str[j]]
      {
        chars[i] := str[i..i + 1];
      }
      assert chars[..] == Chars(str);
      return chars[..];
    }

    var accumulator := ScanTokens(str, delimiter);
    tokens := DropTrailingEmptyTokens(accumulator);
  }

  /** The scanning loop of split for a non-empty delimiter. */
  method ScanTokens(str: string, delimiter: string) returns (accumulator: seq<string>)
    requires |delimiter| > 0
    ensures accumulator == Scanned(str, delimiter)
  {
    var strLen := |str|;
    var delimiterLen := |delimiter|;
    accumulator := [];
    var offset := 0;
    assert accumulator + Pieces(str, delimiter, offset) == Pieces(str, delimiter, 0);
    while true
      invariant 0 <= offset <= strLen
      invariant accumulator + Pieces(str, delimiter, offset) == Pieces(str, delimiter, 0)
      invariant offset == 0 ==> accumulator == []
      invariant offset > 0 ==> IndexOf(str, delimiter, 0) != -1
      decreases strLen - offset
    {
      var delimiterPosition := IndexOf(str, delimiter, offset);
      if delimiterPosition < 0 {
        if offset > 0 {
          assert str[offset..strLen] == str[offset..];
          assert Pieces(str, delimiter, offset) == [str[offset..strLen]];
          accumulator := accumulator + [str[offset..strLen]];
        }
        assert accumulator == Scanned(str, delimiter);
        return;
      }
      PiecesStep(str, delimiter, offset, accumulator);
      accumulator := accumulator + [str[offset..delimiterPosition]];
      offset := delimiterPosition + delimiterLen;
    }
  }

  /** The end of split: copies the accumulated tokens into an array, scans it
      backwards for the last non-empty token and keeps the prefix up to it. */
  method DropTrailingEmptyTokens(accumulator: seq<string>) returns (tokens: seq<string>)
    ensures tokens == DropTrailingEmpty(accumulator)
  {
    var accumulatorLen := |accumulator|;
    var result := new string[accumulatorLen];
    for i := 0 to accumulatorLen
      invariant result[..i] == accumulator[..i]
    {
      result[i] := accumulator[i];
    }
    assert result[..] == accumulator;

    var nonEmptyElementIndex := -1;
    var i := accumulatorLen - 1;
    while i >= 0
      invariant -1 <= i < accumulatorLen
      invariant nonEmptyElementIndex == -1
      invariant forall j :: i < j < accumulatorLen ==> result[j] == ""
    {
      if |result[i]| > 0 {
        nonEmptyElementIndex := i;
        break;
      }
      i := i - 1;
    }

    var fixedResultLen := nonEmptyElementIndex + 1;
    assert forall j :: fixedResultLen <= j < accumulatorLen ==> accumulator[j] == result[j] == "";
    DropTrailingEmptyIs(accumulator, fixedResultLen);
    if fixedResultLen == accumulatorLen {
      tokens := result[..];
    } else {
      var fixedResult := new string[fixedResultLen];
      for k := 0 to fixedResultLen
        invariant result[..] == accumulator
        invariant fixedResult[..k] == accumulator[..k]
      {
        fixedResult[k] := result[k];
      }
      assert fixedResult[..] == accumulator[..fixedResultLen];
      tokens := fixedResult[..];
    }
  }

  // ---------------------------------------------------------------------------
  // Human-readable rendering
  // ---------------------------------------------------------------------------

  /** toHumanReadableString: null unquoted, anything else between double
      quotes with nothing escaped. */
  function ToHumanReadableString(obj: Option<string>): (r: string)
    ensures obj.None? ==> r == "null"
    ensures obj.Some? ==> |r| == |obj.value| + 2 && r[0] == '"' && r[|r| - 1] == '"' && r[1..|r| - 1] == obj.value
  {
    match obj
    case None => "null"
    case Some(s) => ['"'] + s + ['"']
  }

  /** The human-readable rendering of each element. */
  function Rendered(elements: seq<Option<string>>): (r: seq<string>)
    ensures |r| == |elements|
  {
    seq(|elements|, i requires 0 <= i < |elements| => ToHumanReadableString(elements[i]))
  }

  /** Rendering one more element: a ", " first unless it is the first one. */
  lemma RenderedSnoc(shown: seq<Option<string>>, element: Option<string>)
    ensures Join(", ", Rendered(shown + [element]))
         == (if shown == [] then "" else Join(", ", Rendered(shown)) + ", ") + ToHumanReadableString(element)
  {
    assert Rendered(shown + [element]) == Rendered(shown) + [ToHumanReadableString(element)];
    if shown != [] {
      JoinAppend(", ", Rendered(shown), [ToHumanReadableString(element)]);
    }
  }

  /** arrayToString. */
  method ArrayToString(values: array?<Option<string>>) returns (r: string)
    ensures values == null ==> r == "null"
    ensures values != null && values.Length == 0 ==> r == "[]"
    ensures values != null ==> r == "[" + Join(", ", Rendered(values[..])) + "]"
  {
    if values == null {
      return "null";
    } else if values.Length == 0 {
      return "[]";
    }
    var sb := "";
    var firstTime := true;
    var len := values.Length;
    for i := 0 to len
      invariant firstTime <==> i == 0
      invariant i == 0 ==> sb == ""
      invariant i > 0 ==> sb == "[" + Join(", ", Rendered(values[..i]))
    {
      var element := ToHumanReadableString(values[i]);
      assert values[..i + 1] == values[..i] + [values[i]];
      RenderedSnoc(values[..i], values[i]);
      if firstTime {
        firstTime := false;
        sb := sb + "[";
      } else {
        sb := sb + ", ";
      }
      sb := sb + element;
    }
    assert values[..len] == values[..];
    r := sb + "]";
  }
}
