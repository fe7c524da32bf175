/** The two java.lang.String operations the heap's text format rests on:
    gluing fields together around a one-character separator, and
    String.split with a pattern that is one literal character. */
module Strings {

  /** The parts in order, with `sep` between neighbours (String.join). */
  function Join(parts: seq<string>, sep: char): string
  {
    if |parts| == 0 then ""
    else if |parts| == 1 then parts[0]
    else parts[0] + [sep] + Join(parts[1..], sep)
  }

  /** Every piece between occurrences of `sep`, empty pieces included.
      It is the inverse of Join: gluing the pieces back gives `s`. */
  function SplitAll(s: string, sep: char): (parts: seq<string>)
    ensures |parts| >= 1
    ensures forall i :: 0 <= i < |parts| ==> sep !in parts[i]
    ensures Join(parts, sep) == s
  {
    if |s| == 0 then [""]
    else
      var rest := SplitAll(s[1..], sep);
      if s[0] == sep then
        assert ([""] + rest)[1..] == rest;
        [""] + rest
      else
        var parts := [[s[0]] + rest[0]] + rest[1..];
        assert parts[1..] == rest[1..];
        assert s == [s[0]] + s[1..];
        parts
  }

  /** Removes the empty strings at the end, as String.split does. */
  function DropTrailingEmpty(parts: seq<string>): (r: seq<string>)
    ensures r <= parts
    ensures r == [] || r[|r| - 1] != ""
    ensures forall i :: |r| <= i < |parts| ==> parts[i] == ""
  {
    if |parts| == 0 then []
    else if parts[|parts| - 1] == "" then DropTrailingEmpty(parts[..|parts| - 1])
    else parts
  }

  /** String.split(sep) for a one-character literal pattern: when `sep` does
      not occur the result is the whole string, even when that is empty;
      otherwise it is the pieces between occurrences with the trailing
      empty pieces removed. */
  function Split(s: string, sep: char): (parts: seq<string>)
    ensures forall i :: 0 <= i < |parts| ==> sep !in parts[i]
    ensures sep !in s ==> parts == [s]
  {
    if sep !in s then [s] else DropTrailingEmpty(SplitAll(s, sep))
  }

  lemma {:induction false} SplitAllNoSep(p: string, sep: char)
    requires sep !in p
    ensures SplitAll(p, sep) == [p]
    decreases |p|
  {
    if |p| > 0 {
      SplitAllNoSep(p[1..], sep);
      assert p == [p[0]] + p[1..];
    }
  }

  lemma {:induction false} SplitAllCons(p: string, rest: string, sep: char)
    requires sep !in p
    ensures SplitAll(p + [sep] + rest, sep) == [p] + SplitAll(rest, sep)
    decreases |p|
  {
    var s := p + [sep] + rest;
    if |p| == 0 {
      assert s[1..] == rest;
    } else {
      assert s[1..] == p[1..] + [sep] + rest;
      SplitAllCons(p[1..], rest, sep);
      assert p == [p[0]] + p[1..];
    }
  }

  /** Splitting around `sep` recovers exactly the parts that were joined,
      when no part contains `sep`. */
  lemma {:induction false} SplitAllJoin(parts: seq<string>, sep: char)
    requires |parts| >= 1
    requires forall i :: 0 <= i < |parts| ==> sep !in parts[i]
    ensures SplitAll(Join(parts, sep), sep) == parts
    decreases |parts|
  {
    if |parts| == 1 {
      SplitAllNoSep(parts[0], sep);
    } else {
      SplitAllJoin(parts[1..], sep);
      SplitAllCons(parts[0], Join(parts[1..], sep), sep);
      assert parts == [parts[0]] + parts[1..];
    }
  }

  /** String.split undoes Join when no part contains the separator and the
      last part is not empty (String.split drops trailing empty pieces). */
  lemma SplitJoin(parts: seq<string>, sep: char)
    requires |parts| >= 1
    requires forall i :: 0 <= i < |parts| ==> sep !in parts[i]
    requires parts[|parts| - 1] != ""
    ensures Split(Join(parts, sep), sep) == parts
  {
    if |parts| > 1 {
      var s := Join(parts, sep);
      assert s[|parts[0]|] == sep;
      SplitAllJoin(parts, sep);
    }
  }

  /** Joining one more part at the end of a non-empty list adds the
      separator and that part to the end of the text. */
  lemma {:induction false} JoinSnoc(parts: seq<string>, last: string, sep: char)
    requires |parts| >= 1
    ensures Join(parts + [last], sep) == Join(parts, sep) + [sep] + last
    decreases |parts|
  {
    if |parts| > 1 {
      assert (parts + [last])[1..] == parts[1..] + [last];
      JoinSnoc(parts[1..], last, sep);
    }
  }
}
