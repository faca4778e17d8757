# StringUtils in Dafny

A model of `com.cleverua.bb.utils.StringUtils`. This is a stateless Java
helper class for BlackBerry applications. The model covers its in-memory
string operations:

- the null guards `isBlank`, `isNotBlank` and `safe`;
- `linesCount`;
- `replaceAll`;
- `removeBefore`;
- both `join` overloads;
- `split`;
- `arrayToString` and `toHumanReadableString`.

Three modules make up the project:

- `JavaLib` (`java_lib.dfy`) holds the parts of the Java platform the class
  relies on:
  - a Java reference that may be `null`, as `Option` (`None` is `null`);
  - `String.indexOf` for a string pattern and for a character;
  - the text `StringBuffer.append(Object)` writes for a string or `null`
    (`ValueOf`);
  - `java.util.Enumeration`, as a small class that hands out a fixed
    sequence once.
- `StringUtils` (`string_utils.dfy`) holds the operations:
  - The operations that the Java code writes as loops are methods with the
    same loops: `linesCount`, `replaceAll`, both `join`s, `split` and
    `arrayToString`. `split` keeps its scan, its copy into an array, its
    backward search for the last non-empty token and its prefix copy.
  - Each method is proved against a specification function: `Join`,
    `Pieces`, `Scanned`, `DropTrailingEmpty`, `SplitTokens` and `Rendered`.
  - The one-expression helpers are functions.
- `StringUtilsProperties` (`properties.dfy`) holds lemmas that relate several
  calls, plus the examples given in the class's own documentation.

Elements of `join` and `arrayToString` are strings or `null`. They stand in
for `Object.toString()`.

## Model

| member | source | states |
|---|---|---|
| StringUtils.IsBlank | src/com/cleverua/bb/utils/StringUtils.java:29-31 | blank exactly for null and for "" |
| StringUtils.IsNotBlank | src/com/cleverua/bb/utils/StringUtils.java:33-35 | not blank exactly for a non-null string with at least one character |
| StringUtils.Safe | src/com/cleverua/bb/utils/StringUtils.java:37-39 | a string is returned as it is; null becomes "" |
| StringUtils.SafeOr | src/com/cleverua/bb/utils/StringUtils.java:41-43 | a string is returned as it is; null becomes the default, which may itself be null |
| StringUtilsProperties.SafeMatchesBlank | src/com/cleverua/bb/utils/StringUtils.java:29-43 | safe(str) is "" exactly when str is blank; safe(str, "") is safe(str) |
| JavaLib.IndexOfChar | src/com/cleverua/bb/utils/StringUtils.java:51 | the index found holds the character and no earlier index from the start position does; -1 only when no index from there on holds it |
| StringUtils.LinesCount | src/com/cleverua/bb/utils/StringUtils.java:45-54 | 0 for ""; otherwise 1 plus the number of line feeds in the string |
| StringUtilsProperties.LineFeedsOfJoinedLines | src/com/cleverua/bb/utils/StringUtils.java:45-54 | lines without line feeds, joined by "\n", hold one line feed fewer than there are lines; when the joined text is not empty, one more than its line-feed count (what linesCount returns) is the number of lines |
| JavaLib.IndexOf | src/com/cleverua/bb/utils/StringUtils.java:66 | the result is -1, or a position at or after the start from which the pattern fits inside the string |
| JavaLib.IndexOfIsLeftmost | src/com/cleverua/bb/utils/StringUtils.java:180 | a result other than -1 is an occurrence, and no earlier position from the start holds one; -1 means no occurrence at or after the start |
| JavaLib.IndexOfFromStart | src/com/cleverua/bb/utils/StringUtils.java:81 | searching from 0 gives -1 exactly when the pattern does not occur; otherwise it gives the first occurrence |
| JavaLib.Enumeration.HasMoreElements | src/com/cleverua/bb/utils/StringUtils.java:101 | true exactly when elements remain to be handed out |
| JavaLib.Enumeration.NextElement | src/com/cleverua/bb/utils/StringUtils.java:102 | hands out the first remaining element and removes it from those remaining |
| JavaLib.ValueOf | src/com/cleverua/bb/utils/StringUtils.java:106-108 | a null reference appends as the four characters "null"; a string appends as itself |
| StringUtils.JoinEnumeration | src/com/cleverua/bb/utils/StringUtils.java:98-111 | consumes the whole enumeration; the result is the text of its elements, in order, with the delimiter (or "null" for a null delimiter) between consecutive ones |
| StringUtils.JoinArray | src/com/cleverua/bb/utils/StringUtils.java:119-133 | the text of the array's elements, in order, with the delimiter (or "null") between consecutive ones |
| StringUtils.JoinAppend | src/com/cleverua/bb/utils/StringUtils.java:98-133 | joining two non-empty runs of tokens puts exactly one delimiter between their joins |
| StringUtilsProperties.JoinFewTokens | src/com/cleverua/bb/utils/StringUtils.java:98-133 | zero tokens give ""; one token gives that token |
| StringUtilsProperties.JoinLength | src/com/cleverua/bb/utils/StringUtils.java:98-133 | the length of the joined text is the total length of the tokens plus (n - 1) times the delimiter's length |
| StringUtilsProperties.JoinEnds | src/com/cleverua/bb/utils/StringUtils.java:98-133 | no leading or trailing delimiter: the result starts with the first token and ends with the last |
| StringUtilsProperties.JoinBetween | src/com/cleverua/bb/utils/StringUtils.java:98-133 | at every gap between tokens i - 1 and i there is exactly one delimiter, with token i - 1 right before it and token i right after it |
| StringUtils.ReplaceAll | src/com/cleverua/bb/utils/StringUtils.java:57-74 | "" for a null source; otherwise the segments between the non-overlapping leftmost occurrences of the pattern, joined by the replacement ("null" for a null replacement); the loop ends because the search position strictly increases |
| StringUtilsProperties.EmptyPatternMakesNoProgress | src/com/cleverua/bb/utils/StringUtils.java:66-69 | with an empty pattern every search finds the pattern at its own start, so the search position never advances |
| StringUtilsProperties.PiecesRejoin | src/com/cleverua/bb/utils/StringUtils.java:66-71 | joining the segments with the pattern itself rebuilds the text exactly |
| StringUtilsProperties.PiecesAvoidPattern | src/com/cleverua/bb/utils/StringUtils.java:66-70 | no segment contains the pattern |
| StringUtilsProperties.FirstPiece | src/com/cleverua/bb/utils/StringUtils.java:66-67 | the first segment is the text before the first occurrence |
| StringUtilsProperties.ReplaceAllWithoutMatch | src/com/cleverua/bb/utils/StringUtils.java:66-71 | when the pattern does not occur, the result is the source |
| StringUtilsProperties.ReplaceAllWithItself | src/com/cleverua/bb/utils/StringUtils.java:57-74 | replacing the pattern by itself gives back the source |
| StringUtilsProperties.ReplaceAllLength | src/com/cleverua/bb/utils/StringUtils.java:57-74 | each replacement changes the length by the replacement's length minus the pattern's length |
| StringUtils.RemoveBefore | src/com/cleverua/bb/utils/StringUtils.java:76-86 | null stays null; the result is always a suffix of the input; the input is returned when the marker does not occur or is empty; otherwise the result is the text after the first occurrence |
| StringUtilsProperties.RemoveBeforeRecovers | src/com/cleverua/bb/utils/StringUtils.java:81-85 | the text before the first occurrence, then the marker, then the result, is the input |
| StringUtils.SplitTokens | src/com/cleverua/bb/utils/StringUtils.java:161-193 | an empty text gives no tokens; an empty delimiter gives one single-character token per character, in order; a delimiter that never occurs gives no tokens; the last token, if any, is not empty |
| StringUtils.Split | src/com/cleverua/bb/utils/StringUtils.java:161-219 | the tokens are exactly those SplitTokens describes |
| StringUtils.ScanTokens | src/com/cleverua/bb/utils/StringUtils.java:176-193 | nothing when the delimiter never occurs; otherwise every segment between occurrences, including the one after the last |
| StringUtils.DropTrailingEmpty | src/com/cleverua/bb/utils/StringUtils.java:201-218 | the result is a prefix of the tokens; it is empty or ends in a non-empty token; every dropped token is "" |
| StringUtils.DropTrailingEmptyTokens | src/com/cleverua/bb/utils/StringUtils.java:195-218 | the array copy, backward search and prefix copy produce exactly the tokens DropTrailingEmpty keeps |
| StringUtilsProperties.SplitDelimited | src/com/cleverua/bb/utils/StringUtils.java:176-218 | split keeps a prefix of the scanned tokens and drops only empty ones; no scanned token contains the delimiter; when the delimiter occurs, the scanned tokens joined by it give back the text |
| StringUtilsProperties.SplitThenJoin | src/com/cleverua/bb/utils/StringUtils.java:135-143 | when the delimiter occurs, the text is the split tokens joined by the delimiter and followed by some number of delimiters; when no tokens are left, it is only delimiters |
| StringUtilsProperties.SplitExamples | src/com/cleverua/bb/utils/StringUtils.java:140-142 | the documented examples: "asdf" split at "as" keeps the leading empty token, "asdf" split at "df" drops the trailing one |
| StringUtilsProperties.SplitEdgeExamples | src/com/cleverua/bb/utils/StringUtils.java:145-153 | every documented "extreme" example of split, plus a delimiter that does not occur giving no tokens |
| StringUtils.ToHumanReadableString | src/com/cleverua/bb/utils/StringUtils.java:270-272 | null renders as the bare word null; a string s renders as s between double quotes with nothing escaped, so it is two characters longer than s |
| StringUtilsProperties.HumanReadableInjective | src/com/cleverua/bb/utils/StringUtils.java:253-272 | two values that render the same are equal |
| StringUtils.ArrayToString | src/com/cleverua/bb/utils/StringUtils.java:231-251 | "null" for a null array, "[]" for an empty one, otherwise "[" + the renderings separated by ", " + "]" |
| StringUtilsProperties.ArrayToStringExamples | src/com/cleverua/bb/utils/StringUtils.java:221-230 | the documented examples of arrayToString |
| StringUtilsProperties.ArrayRenderingIsAmbiguous | src/com/cleverua/bb/utils/StringUtils.java:245-247 | because nothing is escaped, a one-element array and a two-element array can render the same |

## Left out

- `getStringFromStream` (both overloads) is not modelled. It reads and
  decodes a stream through the platform's `InputStreamReader`, which is I/O
  in a foreign library.
- `StrComparator` and `STRING_COMPARATOR` are not modelled. They wrap RIM's
  `StringComparator`, which is not part of this model.
- The encoding-name constants are not modelled. They are plain data with no
  behaviour.
- `Object.toString()` of arbitrary objects is not modelled. Elements of
  `join` and `arrayToString`, and the argument of `toHumanReadableString`,
  are strings or null.
- StringUtils.ReplaceAll requires a non-empty pattern when the source is not
  null. For a null source it returns "" before any search, whatever the
  pattern. With a non-null source and an empty pattern, the Java loop never
  ends: the search finds the pattern at the search position, and the
  position does not move (`EmptyPatternMakesNoProgress`). That call gives no
  result, so the model has none for it.
- Some null arguments cannot be expressed, because the parameters have
  non-null types. With these arguments the Java code throws a
  NullPointerException: a null `pattern` with a non-null source in
  `replaceAll`; a null marker with a non-null string in `removeBefore`; a
  null `str` in `split` and `linesCount`; a null delimiter with a non-empty
  `str` in `split`; and a null `tokens` in both `join`s.
- Three null arguments that the Java code handles without failing also cannot
  be expressed:
  - `replaceAll(null, null, r)` returns "";
  - `removeBefore(null, null)` returns null;
  - `split("", null)` returns an empty array, although the documentation of
    `split` says it throws a NullPointerException for a null delimiter.
  The model gives these results for every non-null pattern, marker or
  delimiter.
- JavaLib.IndexOf states only bounds in its own contract. Which occurrence it
  finds is stated by `IndexOfIsLeftmost` and `IndexOfFromStart`. Start
  positions past the end of the string are not modelled; every call in the
  model starts inside the string or at its end.
- Strings are not modelled as Java's UTF-16 code units. Java strings are
  sequences of code units; here a string is a sequence of Dafny characters,
  which are Unicode scalar values. The difference shows up for characters
  outside the Basic Multilingual Plane:
  - StringUtils.Split with an empty delimiter gives one token per character.
    Java's `substring(i, i + 1)` gives one token per code unit, so it cuts
    such a character into two surrogate tokens.
  - StringUtils.ToHumanReadableString states that the result is two
    characters longer than the string. Java measures that length in code
    units, not characters.
  - The same applies to every other length and index in the model:
    `LinesCount`, `IndexOf`, `JoinLength` and `ReplaceAllLength`.
- StringUtils.Split returns a sequence, not a `String[]`. Its working arrays
  are kept. Whether the returned array is the same object as the working
  array (the no-trailing-empty case) is not observable here.
- JavaLib.Enumeration stands for any `java.util.Enumeration`. It is a class
  over a fixed sequence, so an enumeration whose source changes while it is
  being read is not modelled.
