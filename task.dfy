/** A task: a name and a due date, with the order the heap keeps them in
    (due date first, then name) and the text form the program saves. */
module Tasks {
  import opened Strings

  /** A due date, as the five java.util.Date fields the program reads and
      sets: `year` is getYear() (years since 1900), `month` is getMonth()
      (0 for January), `day` is getDate(), then getHours() and getMinutes(). */
  datatype Date = Date(year: int, month: int, day: int, hours: int, minutes: int)

  /** A task. Its fields are set by the constructor and never changed; the
      datatype's destructors `name` and `date` are getName and getDate. */
  datatype Task = Task(name: string, date: Date)

  /** The sign of `x - y`, as -1, 0 or 1. */
  function CompareInt(x: int, y: int): (r: int)
    ensures r == -1 || r == 0 || r == 1
    ensures r < 0 <==> x < y
    ensures r == 0 <==> x == y
  {
    if x < y then -1 else if x == y then 0 else 1
  }

  /** Date.compareTo: -1, 0 or 1, field by field from the year down. */
  function DateCompare(a: Date, b: Date): (r: int)
    ensures r == -1 || r == 0 || r == 1
    ensures r == 0 <==> a == b
  {
    if a.year != b.year then CompareInt(a.year, b.year)
    else if a.month != b.month then CompareInt(a.month, b.month)
    else if a.day != b.day then CompareInt(a.day, b.day)
    else if a.hours != b.hours then CompareInt(a.hours, b.hours)
    else CompareInt(a.minutes, b.minutes)
  }

  /** Date.compareTo compares two instants: swapping them negates the result. */
  lemma DateCompareAntisymmetric(a: Date, b: Date)
    ensures DateCompare(a, b) == -DateCompare(b, a)
  {
  }

  lemma DateCompareTransitive(a: Date, b: Date, c: Date)
    requires DateCompare(a, b) < 0 && DateCompare(b, c) < 0
    ensures DateCompare(a, c) < 0
  {
  }

  /** The fields java.util.Date keeps in range after normalisation. */
  predicate InRange(d: Date)
  {
    0 <= d.month < 12 && 1 <= d.day <= 31 && 0 <= d.hours < 24 && 0 <= d.minutes < 60
  }

  /** A count of minutes in a calendar of 12 months of 32 days: every field
      is a digit of a mixed-radix number, the year the most significant. */
  function MinuteCount(d: Date): int
  {
    (((d.year * 12 + d.month) * 32 + d.day) * 24 + d.hours) * 60 + d.minutes
  }

  lemma {:induction false} MulAtLeast(d: int, r: int)
    requires d >= 1 && r >= 0
    ensures d * r >= r
    decreases d
  {
    if d > 1 {
      MulAtLeast(d - 1, r);
      assert d * r == (d - 1) * r + r;
    }
  }

  /** A mixed-radix numeral compares by its high digit first, then its low one. */
  lemma MixedRadix(h1: int, l1: int, h2: int, l2: int, radix: int)
    requires 0 <= l1 < radix && 0 <= l2 < radix
    ensures CompareInt(h1 * radix + l1, h2 * radix + l2)
            == if h1 != h2 then CompareInt(h1, h2) else CompareInt(l1, l2)
  {
    if h1 < h2 {
      MulAtLeast(h2 - h1, radix);
      assert h2 * radix == h1 * radix + (h2 - h1) * radix;
    } else if h2 < h1 {
      MulAtLeast(h1 - h2, radix);
      assert h1 * radix == h2 * radix + (h1 - h2) * radix;
    }
  }

  /** For dates with fields in range, the field-by-field comparison is the
      comparison of the instants, counted in minutes. */
  lemma DateCompareIsChronological(a: Date, b: Date)
    requires InRange(a) && InRange(b)
    ensures DateCompare(a, b) == CompareInt(MinuteCount(a), MinuteCount(b))
  {
    var am, bm := a.year * 12 + a.month, b.year * 12 + b.month;
    MixedRadix(a.year, a.month, b.year, b.month, 12);
    var ad, bd := am * 32 + a.day, bm * 32 + b.day;
    MixedRadix(am, a.day, bm, b.day, 32);
    var ah, bh := ad * 24 + a.hours, bd * 24 + b.hours;
    MixedRadix(ad, a.hours, bd, b.hours, 24);
    MixedRadix(ah, a.minutes, bh, b.minutes, 60);
  }

  /** String.compareTo: the difference of the first two characters that
      differ, or else the difference of the lengths. */
  function NameCompare(a: string, b: string): int
    decreases |a|
  {
    if a == [] || b == [] then |a| - |b|
    else if a[0] != b[0] then a[0] as int - b[0] as int
    else NameCompare(a[1..], b[1..])
  }

  /** `a` comes before `b` in lexicographic order: `a` is a proper prefix of
      `b`, or at the first position where they differ `a` has the smaller
      character. */
  ghost predicate NameBefore(a: string, b: string)
  {
    (|a| < |b| && a == b[..|a|])
    || exists k :: 0 <= k < |a| && k < |b| && a[..k] == b[..k] && a[k] < b[k]
  }

  lemma {:induction false} NameCompareAntisymmetric(a: string, b: string)
    ensures NameCompare(a, b) == -NameCompare(b, a)
    decreases |a|
  {
    if a != [] && b != [] && a[0] == b[0] {
      NameCompareAntisymmetric(a[1..], b[1..]);
    }
  }

  lemma {:induction false} NameCompareZero(a: string, b: string)
    ensures NameCompare(a, b) == 0 <==> a == b
    decreases |a|
  {
    if a != [] && b != [] && a[0] == b[0] {
      NameCompareZero(a[1..], b[1..]);
      assert a == [a[0]] + a[1..];
      assert b == [b[0]] + b[1..];
    }
  }

  lemma {:induction false} NameCompareTransitive(a: string, b: string, c: string)
    requires NameCompare(a, b) < 0 && NameCompare(b, c) < 0
    ensures NameCompare(a, c) < 0
    decreases |a|
  {
    if a != [] && b != [] && c != [] && a[0] == b[0] && b[0] == c[0] {
      NameCompareTransitive(a[1..], b[1..], c[1..]);
    }
  }

  /** Dropping a common first character does not change the lexicographic order. */
  lemma NameBeforeTail(a: string, b: string)
    requires a != [] && b != [] && a[0] == b[0]
    ensures NameBefore(a, b) <==> NameBefore(a[1..], b[1..])
  {
    if NameBefore(a[1..], b[1..]) {
      NameBeforeCons(a, b);
    }
    if NameBefore(a, b) {
      NameBeforeUncons(a, b);
    }
  }

  lemma NameBeforeCons(a: string, b: string)
    requires a != [] && b != [] && a[0] == b[0]
    requires NameBefore(a[1..], b[1..])
    ensures NameBefore(a, b)
  {
    var a', b' := a[1..], b[1..];
    if |a'| < |b'| && a' == b'[..|a'|] {
      assert a == b[..|a|] by {
        assert a == [a[0]] + a' && b[..|a|] == [b[0]] + b'[..|a'|];
      }
    } else {
      var k :| 0 <= k < |a'| && k < |b'| && a'[..k] == b'[..k] && a'[k] < b'[k];
      assert a[..k + 1] == [a[0]] + a'[..k] && b[..k + 1] == [b[0]] + b'[..k];
      assert a[k + 1] < b[k + 1];
    }
  }

  lemma NameBeforeUncons(a: string, b: string)
    requires a != [] && b != [] && a[0] == b[0]
    requires NameBefore(a, b)
    ensures NameBefore(a[1..], b[1..])
  {
    var a', b' := a[1..], b[1..];
    if |a| < |b| && a == b[..|a|] {
      assert a' == b'[..|a'|];
    } else {
      var k :| 0 <= k < |a| && k < |b| && a[..k] == b[..k] && a[k] < b[k];
      assert k != 0;
      assert a'[..k - 1] == a[1..k] && b'[..k - 1] == b[1..k];
      assert a'[k - 1] < b'[k - 1];
    }
  }

  /** String.compareTo is negative exactly when the first name comes first
      in lexicographic order. */
  lemma {:induction false} NameCompareIsLexicographic(a: string, b: string)
    ensures NameCompare(a, b) < 0 <==> NameBefore(a, b)
    decreases |a|
  {
    if a == [] || b == [] {
      if b == [] {
        assert !NameBefore(a, b);
      } else {
        assert NameBefore(a, b) by { assert a == b[..0]; }
      }
    } else if a[0] != b[0] {
      if a[0] < b[0] {
        assert a[..0] == b[..0];
      } else {
        if NameBefore(a, b) && !(|a| < |b| && a == b[..|a|]) {
          var k :| 0 <= k < |a| && k < |b| && a[..k] == b[..k] && a[k] < b[k];
          if k > 0 {
            assert a[..k][0] == b[..k][0];
          }
        }
      }
    } else {
      NameCompareIsLexicographic(a[1..], b[1..]);
      NameBeforeTail(a, b);
    }
  }

  /** Task.compareTo: by due date, and by name when the due dates are equal.
      Two tasks compare equal exactly when they are the same task. */
  function Compare(a: Task, b: Task): (r: int)
    ensures r == 0 <==> a == b
  {
    NameCompareZero(a.name, b.name);
    var compared := DateCompare(a.date, b.date);
    if compared != 0 then compared else NameCompare(a.name, b.name)
  }

  /** `a` may stand before `b` in the heap. */
  predicate LessEq(a: Task, b: Task)
  {
    Compare(a, b) <= 0
  }

  /** `a` strictly precedes `b`. */
  predicate Less(a: Task, b: Task)
  {
    Compare(a, b) < 0
  }

  /** Different due dates decide the order; equal ones leave it to the names. */
  lemma CompareByDateThenName(a: Task, b: Task)
    ensures a.date != b.date ==> Compare(a, b) == DateCompare(a.date, b.date)
    ensures a.date == b.date ==> Compare(a, b) == NameCompare(a.name, b.name)
  {
  }

  /** A task precedes another when it is due earlier, or due at the same
      time with a lexicographically smaller name. */
  lemma CompareIsLexicographic(a: Task, b: Task)
    ensures Less(a, b) <==>
      DateCompare(a.date, b.date) < 0 || (a.date == b.date && NameBefore(a.name, b.name))
  {
    NameCompareIsLexicographic(a.name, b.name);
  }

  lemma CompareReflexive(t: Task)
    ensures Compare(t, t) == 0
  {
  }

  /** Swapping the arguments negates the result (so in particular the signs
      are opposite, as Comparable demands). */
  lemma CompareAntisymmetric(a: Task, b: Task)
    ensures Compare(a, b) == -Compare(b, a)
  {
    DateCompareAntisymmetric(a.date, b.date);
    NameCompareAntisymmetric(a.name, b.name);
  }

  /** Any two tasks are ordered one way or the other. */
  lemma CompareTotal(a: Task, b: Task)
    ensures LessEq(a, b) || LessEq(b, a)
    ensures !Less(a, b) ==> LessEq(b, a)
  {
    CompareAntisymmetric(a, b);
  }

  lemma CompareTransitive(a: Task, b: Task, c: Task)
    requires LessEq(a, b) && LessEq(b, c)
    ensures LessEq(a, c)
    ensures Less(a, b) || Less(b, c) ==> Less(a, c)
  {
    if a != b && b != c {
      if a.date != b.date && b.date != c.date {
        DateCompareTransitive(a.date, b.date, c.date);
      } else if a.date == b.date && b.date == c.date {
        NameCompareTransitive(a.name, b.name, c.name);
      }
    }
  }

  /** Tasks that may each stand before the other are the same task. */
  lemma CompareAntisymmetricEq(a: Task, b: Task)
    requires LessEq(a, b) && LessEq(b, a)
    ensures a == b
  {
    CompareAntisymmetric(a, b);
  }

  // ---- Text form (Task.toString) ----

  predicate IsDigit(c: char)
  {
    '0' <= c <= '9'
  }

  function DigitChar(d: nat): (c: char)
    requires d < 10
  {
    (48 + d) as char
  }

  /** The number a string of decimal digits stands for. */
  function DigitsValue(s: string): int
    decreases |s|
  {
    if s == [] then 0 else DigitsValue(s[..|s| - 1]) * 10 + (s[|s| - 1] as int - 48)
  }

  /** The number a decimal numeral with an optional leading '-' stands for. */
  function DecimalValue(s: string): int
  {
    if |s| > 0 && s[0] == '-' then -DigitsValue(s[1..]) else DigitsValue(s)
  }

  /** Integer.toString of a non-negative number: its decimal digits, with
      no leading zero. */
  function NatToString(n: nat): (s: string)
    ensures |s| >= 1 && forall i :: 0 <= i < |s| ==> IsDigit(s[i])
    ensures s[0] == '0' ==> n == 0
    ensures DigitsValue(s) == n
    decreases n
  {
    if n < 10 then [DigitChar(n)]
    else
      var s := NatToString(n / 10) + [DigitChar(n % 10)];
      assert s[..|s| - 1] == NatToString(n / 10);
      s
  }

  /** Integer.toString: a '-' for a negative number, then the digits of its
      magnitude; reading the text back gives the number. */
  function IntToString(i: int): (s: string)
    ensures |s| >= 1 && forall k :: 0 <= k < |s| ==> IsDigit(s[k]) || (k == 0 && s[k] == '-')
    ensures s[0] == '-' <==> i < 0
    ensures i < 0 ==> |s| >= 2 && s[1] != '0'
    ensures DecimalValue(s) == i
  {
    if i < 0 then
      var s := "-" + NatToString(-i);
      assert s[1..] == NatToString(-i);
      s
    else NatToString(i)
  }

  /** The minutes field of Task.toString: a '0' in front of anything below 10. */
  function MinutesText(m: int): string
  {
    if m < 10 then "0" + IntToString(m) else IntToString(m)
  }

  /** The date part of Task.toString: "M/D/YYYY H:MM", the month counted
      from 1 and the year in full. */
  function DateText(d: Date): string
  {
    IntToString(d.month + 1) + "/" + IntToString(d.day) + "/" + IntToString(d.year + 1900)
    + " " + IntToString(d.hours) + ":" + MinutesText(d.minutes)
  }

  /** Task.toString: the name, a comma, then the date. */
  function Encode(t: Task): string
  {
    t.name + "," + DateText(t.date)
  }

  /** The characters at which java.util.Scanner ends a line. */
  predicate LineTerminator(c: char)
  {
    c == '\n' || c == '\r' || c == '\U{0085}' || c == '\U{2028}' || c == '\U{2029}'
  }

  /** A text that Scanner.nextLine reads back as one line. */
  predicate OneLine(s: string)
  {
    forall k :: 0 <= k < |s| ==> !LineTerminator(s[k])
  }

  /** The name may be written to the task file unchanged: it holds neither
      the field separator ',' nor the record separator '=', and no line
      terminator. */
  predicate NoSeparators(name: string)
  {
    ',' !in name && '=' !in name && OneLine(name)
  }

  /** The characters the date text is made of. */
  predicate DateChar(c: char)
  {
    IsDigit(c) || c == '-' || c == '/' || c == ' ' || c == ':'
  }

  /** For minutes in 0..59 the minutes field is exactly two decimal digits
      standing for the minutes. */
  lemma MinutesTwoDigits(m: int)
    requires 0 <= m < 60
    ensures |MinutesText(m)| == 2
    ensures IsDigit(MinutesText(m)[0]) && IsDigit(MinutesText(m)[1])
    ensures DigitsValue(MinutesText(m)) == m
  {
    var s := MinutesText(m);
    if m < 10 {
      assert s == ['0', DigitChar(m)];
      assert s[..1] == "0";
    } else {
      assert NatToString(m) == NatToString(m / 10) + [DigitChar(m % 10)];
      assert NatToString(m / 10) == [DigitChar(m / 10)];
    }
  }

  /** Every character of s is one the date text is made of. */
  predicate DateChars(s: string)
  {
    forall k :: 0 <= k < |s| ==> DateChar(s[k])
  }

  lemma DateCharsConcat(a: string, b: string)
    requires DateChars(a) && DateChars(b)
    ensures DateChars(a + b)
  {
    var s := a + b;
    forall k | 0 <= k < |s|
      ensures DateChar(s[k])
    {
      if k < |a| {
        assert s[k] == a[k];
      } else {
        assert s[k] == b[k - |a|];
      }
    }
  }

  lemma OneLineConcat(a: string, b: string)
    requires OneLine(a) && OneLine(b)
    ensures OneLine(a + b)
  {
    var s := a + b;
    forall k | 0 <= k < |s|
      ensures !LineTerminator(s[k])
    {
      if k < |a| {
        assert s[k] == a[k];
      } else {
        assert s[k] == b[k - |a|];
      }
    }
  }

  lemma IntToStringDateChars(i: int)
    ensures DateChars(IntToString(i))
  {
  }

  /** The date text is never empty and is made of digits, '-', '/', ' '
      and ':' only. */
  lemma DateTextChars(d: Date)
    ensures |DateText(d)| > 0
    ensures DateChars(DateText(d))
  {
    var month, day, year := IntToString(d.month + 1), IntToString(d.day), IntToString(d.year + 1900);
    var hours, minutes := IntToString(d.hours), MinutesText(d.minutes);
    IntToStringDateChars(d.month + 1);
    IntToStringDateChars(d.day);
    IntToStringDateChars(d.year + 1900);
    IntToStringDateChars(d.hours);
    IntToStringDateChars(d.minutes);
    DateCharsConcat("0", IntToString(d.minutes));
    DateCharsConcat(month, "/");
    DateCharsConcat(month + "/", day);
    DateCharsConcat(month + "/" + day, "/");
    DateCharsConcat(month + "/" + day + "/", year);
    DateCharsConcat(month + "/" + day + "/" + year, " ");
    DateCharsConcat(month + "/" + day + "/" + year + " ", hours);
    DateCharsConcat(month + "/" + day + "/" + year + " " + hours, ":");
    DateCharsConcat(month + "/" + day + "/" + year + " " + hours + ":", minutes);
  }

  /** The date text is never empty and contains neither separator nor a
      line terminator. */
  lemma DateTextHasNoSeparators(d: Date)
    ensures |DateText(d)| > 0
    ensures NoSeparators(DateText(d))
  {
    DateTextChars(d);
    var s := DateText(d);
    assert forall k :: 0 <= k < |s| ==> s[k] != ',' && s[k] != '=' && !LineTerminator(s[k]);
  }

  /** Task.toString of a task whose name may be written unchanged is one
      line of the task file. */
  lemma EncodeIsOneLine(t: Task)
    requires NoSeparators(t.name)
    ensures OneLine(Encode(t))
  {
    DateTextHasNoSeparators(t.date);
    OneLineConcat(t.name, ",");
    OneLineConcat(t.name + ",", DateText(t.date));
  }

  /** The encoding holds no '=' when the name holds none, so records can be
      joined with '='. */
  lemma EncodeHasNoRecordSeparator(t: Task)
    requires '=' !in t.name
    ensures '=' !in Encode(t) && |Encode(t)| > 0
  {
    DateTextHasNoSeparators(t.date);
  }

  /** Splitting Task.toString at ',' gives the name and the date text back,
      for a name without a comma: the text before the first ',' is the name. */
  lemma EncodeFields(t: Task)
    requires ',' !in t.name
    ensures Split(Encode(t), ',') == [t.name, DateText(t.date)]
  {
    DateTextHasNoSeparators(t.date);
    var parts := [t.name, DateText(t.date)];
    assert Join(parts, ',') == Encode(t);
    SplitJoin(parts, ',');
  }
}
