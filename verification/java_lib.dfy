/** The pieces of the Java platform that StringUtils relies on: null references,
    the searching operations of java.lang.String, String.valueOf(Object) for the
    string-or-null values the library formats, and java.util.Enumeration. */
module JavaLib {

  /** A Java reference to a value of type T that may be null. */
  datatype Option<T> = None | Some(value: T)

  /** Pattern `p` occurs in `s` starting at index `k`. */
  predicate OccursAt(s: string, p: string, k: int) {
    0 <= k && k + |p| <= |s| && s[k..k + |p|] == p
  }

  /** `p` occurs somewhere in `s` (String.indexOf(p) != -1). */
  ghost predicate Contains(s: string, p: string) {
    exists k :: OccursAt(s, p, k)
  }

  /** `k` is the leftmost index at which `p` occurs in `s`. */
  predicate FirstOccurrence(s: string, p: string, k: int) {
    OccursAt(s, p, k) && forall j :: 0 <= j < k ==> !OccursAt(s, p, j)
  }

  predicate StartsWith(s: string, prefix: string) {
    |prefix| <= |s| && s[..|prefix|] == prefix
  }

  predicate EndsWith(s: string, suffix: string) {
    |suffix| <= |s| && s[|s| - |suffix|..] == suffix
  }

  /** String.indexOf(String p, int from): the leftmost occurrence of `p` at or
      after `from`, or -1 when there is none. */
  function IndexOf(s: string, p: string, from: nat): (r: int)
    requires from <= |s|
    ensures r == -1 || (from <= r && r + |p| <= |s|)
    decreases |s| - from
  {
    if OccursAt(s, p, from) then from
    else if from == |s| then -1
    else IndexOf(s, p, from + 1)
  }

  /** IndexOf finds the leftmost occurrence at or after `from`, and reports -1
      only when there is none. */
  lemma {:induction false} IndexOfIsLeftmost(s: string, p: string, from: nat)
    requires from <= |s|
    ensures IndexOf(s, p, from) != -1 ==> OccursAt(s, p, IndexOf(s, p, from))
    ensures IndexOf(s, p, from) != -1 ==> forall k :: from <= k < IndexOf(s, p, from) ==> !OccursAt(s, p, k)
    ensures IndexOf(s, p, from) == -1 ==> forall k :: from <= k ==> !OccursAt(s, p, k)
    decreases |s| - from
  {
    if !OccursAt(s, p, from) && from < |s| {
      IndexOfIsLeftmost(s, p, from + 1);
    }
  }

  /** IndexOf from the start is -1 exactly when the pattern does not occur,
      and otherwise is its first occurrence. */
  lemma IndexOfFromStart(s: string, p: string)
    ensures IndexOf(s, p, 0) == -1 <==> !Contains(s, p)
    ensures IndexOf(s, p, 0) != -1 ==> FirstOccurrence(s, p, IndexOf(s, p, 0))
  {
    IndexOfIsLeftmost(s, p, 0);
  }

  /** String.indexOf(int ch, int from): the leftmost index at or after `from`
      holding `c`, or -1 when there is none (also when `from` is past the end). */
  function IndexOfChar(s: string, c: char, from: nat): (r: int)
    ensures r == -1 || (from <= r < |s| && s[r] == c)
    ensures r != -1 ==> forall k :: from <= k < r ==> s[k] != c
    ensures r == -1 ==> forall k :: from <= k < |s| ==> s[k] != c
    decreases |s| - from
  {
    if from >= |s| then -1
    else if s[from] == c then from
    else IndexOfChar(s, c, from + 1)
  }

  /** The text StringBuffer.append(Object) adds for a string or a null reference. */
  function ValueOf(o: Option<string>): (text: string)
    ensures o.None? ==> text == "null"
    ensures o.Some? ==> text == o.value
  {
    match o
    case None => "null"
    case Some(s) => s
  }

  /** A java.util.Enumeration over a fixed sequence of strings-or-null: it hands
      out the elements once, in order, and cannot be restarted. */
  class Enumeration {
    const elements: seq<Option<string>>
    var cursor: nat

    ghost predicate Valid()
      reads this
    {
      cursor <= |elements|
    }

    /** The elements not handed out yet. */
    function Remaining(): seq<Option<string>>
      reads this
      requires Valid()
    {
      elements[cursor..]
    }

    constructor (elements: seq<Option<string>>)
      ensures Valid() && Remaining() == elements
    {
      this.elements := elements;
      cursor := 0;
    }

    method HasMoreElements() returns (more: bool)
      requires Valid()
      ensures more <==> Remaining() != []
    {
      more := cursor < |elements|;
    }

    method NextElement() returns (e: Option<string>)
      requires Valid() && Remaining() != []
      modifies this
      ensures Valid()
      ensures e == old(Remaining())[0] && Remaining() == old(Remaining())[1..]
    {
      e := elements[cursor];
      cursor := cursor + 1;
    }
  }
}
