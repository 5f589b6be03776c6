/** `parse_coord` (app.py:15-30): turns the text of a latitude or longitude
    cell into a number, tolerating decimal commas, a misplaced thousands
    separator and stray characters. `None` is the NaN `parse_coord` returns. */
module Coord {
  import opened Wrappers
  import opened Text
  import Dec = Decimal

  /** The number of occurrences of `c` in `s`. */
  function Count(s: string, c: char): (n: nat)
    ensures n <= |s|
  {
    if s == [] then 0 else (if s[0] == c then 1 else 0) + Count(s[1..], c)
  }

  lemma {:induction false} CountAppend(a: string, b: string, c: char)
    ensures Count(a + b, c) == Count(a, c) + Count(b, c)
  {
    if a == [] {
      assert a + b == b;
    } else {
      assert (a + b)[0] == a[0];
      assert (a + b)[1..] == a[1..] + b;
      CountAppend(a[1..], b, c);
    }
  }

  /** A count of zero means that no position holds `c`. */
  lemma {:induction false} CountZero(s: string, c: char)
    requires Count(s, c) == 0
    ensures forall k :: 0 <= k < |s| ==> s[k] != c
  {
    if s != [] {
      CountZero(s[1..], c);
      assert forall k :: 1 <= k < |s| ==> s[k] == s[1..][k - 1];
    }
  }

  /** A text no position of which holds `c` has a count of zero. */
  lemma {:induction false} CountAbsent(s: string, c: char)
    requires forall k :: 0 <= k < |s| ==> s[k] != c
    ensures Count(s, c) == 0
  {
    if s != [] {
      assert forall k :: 0 <= k < |s| - 1 ==> s[1..][k] == s[k + 1];
      CountAbsent(s[1..], c);
    }
  }

  // ----- step 1: `s.replace(",", ".")` (app.py:19)

  function Swap(c: char): char {
    if c == ',' then '.' else c
  }

  /** Every comma becomes a period and nothing else changes. */
  function ReplaceCommas(s: string): (r: string)
    ensures |r| == |s| && Count(r, ',') == 0
    ensures forall k :: 0 <= k < |s| ==> r[k] == Swap(s[k])
  {
    if s == [] then []
    else
      var rest := ReplaceCommas(s[1..]);
      assert ([Swap(s[0])] + rest)[1..] == rest;
      [Swap(s[0])] + rest
  }

  /** After the replacement the periods are the old periods and commas
      together. */
  lemma {:induction false} ReplaceCommasCount(s: string)
    ensures Count(ReplaceCommas(s), '.') == Count(s, '.') + Count(s, ',')
  {
    if s != [] {
      ReplaceCommasCount(s[1..]);
    }
  }

  lemma {:induction false} ReplaceCommasAppend(a: string, b: string)
    ensures ReplaceCommas(a + b) == ReplaceCommas(a) + ReplaceCommas(b)
  {
    if a != [] {
      assert (a + b)[0] == a[0];
      assert (a + b)[1..] == a[1..] + b;
      ReplaceCommasAppend(a[1..], b);
    }
  }

  /** Text that has no period after the replacement was not touched by it,
      and is the only text with that image. */
  lemma {:induction false} ReplaceCommasNoPoint(x: string, y: string)
    requires ReplaceCommas(x) == ReplaceCommas(y)
    requires Count(ReplaceCommas(x), '.') == 0
    ensures x == y == ReplaceCommas(x)
  {
    var r := ReplaceCommas(x);
    CountZero(r, '.');
    assert forall k :: 0 <= k < |x| ==> x[k] == r[k] && y[k] == r[k];
  }

  /** Since neither `,` nor `.` is whitespace, replacing commas before or
      after stripping gives the same text. */
  lemma {:induction false} StripReplaceCommas(x: string)
    ensures Strip(ReplaceCommas(x)) == ReplaceCommas(Strip(x))
  {
    var lead, core, trail := Leading(x), Strip(x), Trailing(x);
    ReplaceCommasPadded(x);
    ReplaceCommasStripped(core);
    StripDecomposes(x);
    StripPadded(lead, ReplaceCommas(core), trail);
  }

  lemma ReplaceCommasStripped(s: string)
    requires IsStripped(s)
    ensures IsStripped(ReplaceCommas(s))
  {
    var r := ReplaceCommas(s);
    if s != [] {
      assert r[0] == Swap(s[0]) && r[|r| - 1] == Swap(s[|s| - 1]);
    }
  }

  lemma {:induction false} ReplaceCommasPadded(x: string)
    ensures ReplaceCommas(x) == Leading(x) + ReplaceCommas(Strip(x)) + Trailing(x)
  {
    var lead, core, trail := Leading(x), Strip(x), Trailing(x);
    StripDecomposes(x);
    ReplaceCommasAppend(lead + core, trail);
    ReplaceCommasAppend(lead, core);
    ReplaceCommasKeepsSpace(lead);
    ReplaceCommasKeepsSpace(trail);
  }

  lemma {:induction false} ReplaceCommasKeepsSpace(s: string)
    requires AllSpace(s)
    ensures ReplaceCommas(s) == s
  {
    var r := ReplaceCommas(s);
    assert forall k :: 0 <= k < |s| ==> r[k] == s[k] by {
      forall k | 0 <= k < |s| ensures r[k] == s[k] {
        assert IsSpace(s[k]);
      }
    }
  }

  // ----- step 2: the multiple-period fix (app.py:20-25)

  /** `s.split(".")`: the pieces between periods, one more than there are
      periods, none containing a period. */
  function Split(s: string): (parts: seq<string>)
    ensures |parts| == Count(s, '.') + 1
    ensures forall k :: 0 <= k < |parts| ==> Count(parts[k], '.') == 0
  {
    if s == [] then [[]]
    else
      var rest := Split(s[1..]);
      if s[0] == '.' then [[]] + rest
      else
        assert ([s[0]] + rest[0])[1..] == rest[0];
        [[s[0]] + rest[0]] + rest[1..]
  }

  /** `sep.join(parts)`. */
  function JoinWith(parts: seq<string>, sep: string): string {
    if parts == [] then []
    else if |parts| == 1 then parts[0]
    else parts[0] + sep + JoinWith(parts[1..], sep)
  }

  /** `"".join(parts)`: pieces without periods join into text without
      periods. */
  function Concat(parts: seq<string>): (r: string)
    ensures (forall k :: 0 <= k < |parts| ==> Count(parts[k], '.') == 0) ==> Count(r, '.') == 0
  {
    if parts == [] then []
    else
      CountAppend(parts[0], Concat(parts[1..]), '.');
      assert forall k :: 0 <= k < |parts| - 1 ==> parts[1..][k] == parts[k + 1];
      parts[0] + Concat(parts[1..])
  }

  /** Splitting on periods and joining with periods gives the text back. */
  lemma {:induction false} SplitJoin(s: string)
    ensures JoinWith(Split(s), ".") == s
  {
    if s != [] {
      var rest := Split(s[1..]);
      SplitJoin(s[1..]);
      if s[0] != '.' {
        if |rest| == 1 {
          assert s == [s[0]] + rest[0];
        } else {
          assert rest[1..][0] == rest[1];
          assert s == [s[0]] + (rest[0] + "." + JoinWith(rest[1..], "."));
        }
      } else {
        assert s == "." + s[1..];
      }
    }
  }

  /** The first piece as the integer part, a period, and the remaining
      pieces glued together as the fraction: from pieces without periods the
      result has exactly one period, right after the first piece. */
  function Reassemble(parts: seq<string>): (r: string)
    requires |parts| > 0
    ensures (forall k :: 0 <= k < |parts| ==> Count(parts[k], '.') == 0) ==>
      Count(r, '.') == 1 && FirstIndex(r, '.') == |parts[0]|
  {
    var head, glued := parts[0], Concat(parts[1..]);
    assert forall k :: 0 <= k < |parts| - 1 ==> parts[1..][k] == parts[k + 1];
    CountAppend(head + ".", glued, '.');
    CountAppend(head, ".", '.');
    if Count(head, '.') == 0 then
      FirstIndexAfter(head, glued);
      head + "." + glued
    else
      head + "." + glued
  }

  /** `s` with every `c` deleted. */
  function RemoveAll(s: string, c: char): (r: string)
    ensures Count(r, c) == 0
    ensures |r| == |s| - Count(s, c)
  {
    if s == [] then []
    else
      var rest := RemoveAll(s[1..], c);
      if s[0] == c then rest
      else
        assert ([s[0]] + rest)[1..] == rest;
        [s[0]] + rest
  }

  lemma {:induction false} RemoveAllAppend(a: string, b: string, c: char)
    ensures RemoveAll(a + b, c) == RemoveAll(a, c) + RemoveAll(b, c)
  {
    if a == [] {
      assert a + b == b;
    } else {
      assert (a + b)[0] == a[0];
      assert (a + b)[1..] == a[1..] + b;
      RemoveAllAppend(a[1..], b, c);
    }
  }

  lemma {:induction false} RemoveAllAbsent(s: string, c: char)
    requires Count(s, c) == 0
    ensures RemoveAll(s, c) == s
  {
    if s != [] {
      assert s == [s[0]] + s[1..];
      RemoveAllAbsent(s[1..], c);
    }
  }

  /** Gluing the pieces of a split together deletes the periods. */
  lemma {:induction false} ConcatSplit(s: string)
    ensures Concat(Split(s)) == RemoveAll(s, '.')
  {
    if s != [] {
      ConcatSplit(s[1..]);
      if s[0] == '.' {
        ConcatSplitPoint(s);
      } else {
        ConcatSplitOther(s);
      }
    }
  }

  lemma ConcatSplitPoint(s: string)
    requires s != [] && s[0] == '.'
    requires Concat(Split(s[1..])) == RemoveAll(s[1..], '.')
    ensures Concat(Split(s)) == RemoveAll(s, '.')
  {
    var rest := Split(s[1..]);
    assert Split(s) == [[]] + rest;
    assert ([[]] + rest)[1..] == rest;
  }

  lemma ConcatSplitOther(s: string)
    requires s != [] && s[0] != '.'
    requires Concat(Split(s[1..])) == RemoveAll(s[1..], '.')
    ensures Concat(Split(s)) == RemoveAll(s, '.')
  {
    var rest := Split(s[1..]);
    ConcatGlue(s[0], rest);
  }

  /** Gluing a character onto the first piece glues it onto the join. */
  lemma ConcatGlue(c: char, parts: seq<string>)
    requires parts != []
    ensures Concat([[c] + parts[0]] + parts[1..]) == [c] + Concat(parts)
  {
    var glued := [[c] + parts[0]] + parts[1..];
    var others := Concat(parts[1..]);
    assert glued[1..] == parts[1..];
    assert Concat(glued) == ([c] + parts[0]) + others;
    assert Concat(parts) == parts[0] + others;
    AppendAssoc([c], parts[0], others);
  }

  lemma AppendAssoc(a: string, b: string, c: string)
    ensures (a + b) + c == a + (b + c)
  {
  }

  /** The position of the first `c` in `s`. */
  function FirstIndex(s: string, c: char): (i: nat)
    requires Count(s, c) > 0
    ensures i < |s| && s[i] == c && Count(s[..i], c) == 0
  {
    if s[0] == c then 0
    else
      var i := 1 + FirstIndex(s[1..], c);
      assert s[..i] == [s[0]] + s[1..][..i - 1];
      assert s[..i][1..] == s[1..][..i - 1];
      i
  }

  /** The first piece of a split is the text before the first period, and
      the remaining pieces are the split of the text after it. */
  lemma {:induction false} SplitAtFirst(s: string)
    requires Count(s, '.') > 0
    ensures var i := FirstIndex(s, '.'); Split(s) == [s[..i]] + Split(s[i + 1..])
  {
    var i := FirstIndex(s, '.');
    if s[0] != '.' {
      SplitAtFirst(s[1..]);
      assert s[1..][FirstIndex(s[1..], '.') + 1..] == s[i + 1..];
      assert s[..i] == [s[0]] + s[1..][..i - 1];
    }
  }

  /** The intended meaning of the fix: keep everything up to and including
      the first period, and delete every later period. */
  function KeepFirstPoint(s: string): (r: string)
    requires Count(s, '.') > 0
    ensures Count(r, '.') == 1 && |r| == |s| - Count(s, '.') + 1
  {
    var i := FirstIndex(s, '.');
    var head, tail := s[..i], s[i + 1..];
    assert s == head + "." + tail;
    CountAppend(head + ".", tail, '.');
    CountAppend(head, ".", '.');
    CountAppend(head + ".", RemoveAll(tail, '.'), '.');
    assert s[..i + 1] == head + ".";
    s[..i + 1] + RemoveAll(tail, '.')
  }

  /** app.py:20-25. When more than one period is present, keep a leading
      `-`, take the first period-delimited piece as the integer part and glue
      all the others together as the fraction. The result holds at most one
      period, is exactly the text up to the first period followed by the rest
      with its periods deleted, and loses no other character. */
  function FixPeriods(s: string): (r: string)
    ensures Count(r, '.') <= 1
    ensures Count(s, '.') <= 1 ==> r == s
    ensures Count(s, '.') > 1 ==> r == KeepFirstPoint(s)
    ensures RemoveAll(r, '.') == RemoveAll(s, '.')
  {
    if Count(s, '.') > 1 then
      var neg := |s| > 0 && s[0] == '-';
      var s2 := if neg then s[1..] else s;
      var r := (if neg then "-" else "") + Reassemble(Split(s2));
      FixPeriodsMeaning(s, neg, s2);
      KeepFirstPointProperties(s);
      r
    else
      s
  }

  lemma {:induction false} FixPeriodsMeaning(s: string, neg: bool, s2: string)
    requires Count(s, '.') > 0
    requires neg == (|s| > 0 && s[0] == '-') && s2 == if neg then s[1..] else s
    ensures (if neg then "-" else "") + Reassemble(Split(s2)) == KeepFirstPoint(s)
  {
    if neg {
      SignedKeepFirstPoint(s);
    }
    JoinedPieces(s2);
  }

  lemma {:induction false} SignedKeepFirstPoint(s: string)
    requires Count(s, '.') > 0 && |s| > 0 && s[0] == '-'
    ensures Count(s[1..], '.') > 0 && KeepFirstPoint(s) == "-" + KeepFirstPoint(s[1..])
  {
    assert s == [s[0]] + s[1..];
    KeepFirstPointCons(s[0], s[1..]);
  }

  /** The first piece, a period and the other pieces glued together is the
      reference reading. */
  lemma {:induction false} JoinedPieces(s: string)
    requires Count(s, '.') > 0
    ensures Reassemble(Split(s)) == KeepFirstPoint(s)
  {
    var i := FirstIndex(s, '.');
    var head, tail := s[..i], s[i + 1..];
    SplitAtFirst(s);
    ConcatSplit(tail);
    ReassembleUnfold(Split(s), head, RemoveAll(tail, '.'));
    KeepFirstPointUnfold(s, i);
  }

  lemma KeepFirstPointUnfold(s: string, i: nat)
    requires Count(s, '.') > 0 && i == FirstIndex(s, '.')
    ensures KeepFirstPoint(s) == s[..i] + "." + RemoveAll(s[i + 1..], '.')
  {
    ThroughPoint(s, i);
    KeepFirstPointBody(s, i);
  }

  lemma KeepFirstPointBody(s: string, i: nat)
    requires Count(s, '.') > 0 && i == FirstIndex(s, '.')
    ensures KeepFirstPoint(s) == s[..i + 1] + RemoveAll(s[i + 1..], '.')
  {
  }

  lemma ThroughPoint(s: string, i: nat)
    requires i < |s| && s[i] == '.'
    ensures s[..i + 1] == s[..i] + "."
  {
  }

  lemma ReassembleUnfold(parts: seq<string>, head: string, glued: string)
    requires |parts| > 0 && parts[0] == head && Concat(parts[1..]) == glued
    ensures Reassemble(parts) == head + "." + glued
  {
  }

  lemma {:induction false} KeepFirstPointCons(c: char, t: string)
    requires c != '.' && Count(t, '.') > 0
    ensures KeepFirstPoint([c] + t) == [c] + KeepFirstPoint(t)
  {
    var s := [c] + t;
    assert s[1..] == t;
    var i := FirstIndex(t, '.');
    assert FirstIndex(s, '.') == i + 1;
    assert s[..i + 2] == [c] + t[..i + 1];
    assert s[i + 2..] == t[i + 1..];
  }

  /** The reference reading has exactly one period and the same non-period
      characters, in the same order, as the input. */
  lemma {:induction false} KeepFirstPointProperties(s: string)
    requires Count(s, '.') > 0
    ensures Count(KeepFirstPoint(s), '.') == 1
    ensures RemoveAll(KeepFirstPoint(s), '.') == RemoveAll(s, '.')
  {
    var i := FirstIndex(s, '.');
    var head, tail := s[..i], s[i + 1..];
    var rest := RemoveAll(tail, '.');
    KeepFirstPointUnfold(s, i);
    assert s == head + "." + tail;
    CountAppend(head + ".", rest, '.');
    CountAppend(head, ".", '.');
    RemoveAllAppend(head + ".", tail, '.');
    RemoveAllAppend(head + ".", rest, '.');
    RemoveAllAbsent(rest, '.');
  }

  // ----- step 3: `re.sub(r"[^0-9\.\-]", "", s)` (app.py:26)

  /** The class `[0-9.-]`: such a character is neither a comma, whitespace
      nor an upper-case letter, so the earlier steps leave it alone. */
  predicate IsNumericChar(c: char)
    ensures IsNumericChar(c) ==> c != ',' && !IsSpace(c) && !('A' <= c <= 'Z')
  {
    Dec.IsDigit(c) || c == '.' || c == '-'
  }

  /** Deletes every character other than an ASCII digit, `.` or `-`: what is
      left holds only those, every digit, `.` and `-` of the input as often as
      the input holds it, and text made only of them is left as it is. The
      order is kept by `KeepNumericAppend`. */
  function KeepNumeric(s: string): (r: string)
    ensures |r| <= |s|
    ensures forall k :: 0 <= k < |r| ==> IsNumericChar(r[k])
    ensures forall c :: IsNumericChar(c) ==> Count(r, c) == Count(s, c)
    ensures Count(r, '.') == Count(s, '.')
    ensures (forall k :: 0 <= k < |s| ==> IsNumericChar(s[k])) ==> r == s
  {
    if s == [] then []
    else
      var rest := KeepNumeric(s[1..]);
      if IsNumericChar(s[0]) then
        assert s == [s[0]] + s[1..];
        assert ([s[0]] + rest)[1..] == rest;
        [s[0]] + rest
      else
        rest
  }

  /** The filter acts character by character: filtering a concatenation is
      filtering each part, in order. */
  lemma {:induction false} KeepNumericAppend(a: string, b: string)
    ensures KeepNumeric(a + b) == KeepNumeric(a) + KeepNumeric(b)
  {
    if a == [] {
      assert a + b == b;
    } else {
      assert (a + b)[0] == a[0];
      assert (a + b)[1..] == a[1..] + b;
      KeepNumericAppend(a[1..], b);
    }
  }

  /** One character is kept exactly when it is a digit, `.` or `-`. */
  lemma KeepNumericOne(c: char)
    ensures KeepNumeric([c]) == if IsNumericChar(c) then [c] else []
  {
    assert [c][1..] == [];
  }

  /** The text handed to `float()`: only digits, `.` and `-`, and at most one
      period. */
  function Clean(s: string): (r: string)
    ensures forall k :: 0 <= k < |r| ==> IsNumericChar(r[k])
    ensures Count(r, '.') <= 1
  {
    KeepNumeric(FixPeriods(ReplaceCommas(s)))
  }

  // ----- the whole of parse_coord

  /** app.py:17's NaN test: the text is empty, or is `nan` in any mix of
      upper and lower case. */
  predicate IsMissing(s: string)
    ensures IsMissing(s) <==>
      s == [] || (|s| == 3 && (s[0] == 'n' || s[0] == 'N') && (s[1] == 'a' || s[1] == 'A') && (s[2] == 'n' || s[2] == 'N'))
  {
    if s == [] then true
    else
      var r := LowerAscii(s);
      assert |s| == 3 ==> (r == "nan" <==> r[0] == 'n' && r[1] == 'a' && r[2] == 'n');
      r == "nan"
  }

  /** app.py:15-30. Never fails: `None` when the stripped text is empty or
      `nan`, otherwise the cleaned text read as a decimal, and `None` when it
      is not one. Whatever it reads is exactly the cleaned text. */
  function ParseCoord(raw: string): (r: Option<Dec.Decimal>)
    ensures IsMissing(Strip(raw)) ==> r == None
    ensures r.Some? ==> Dec.Valid(r.value) && Dec.Render(r.value) == Clean(Strip(raw))
  {
    var s := Strip(raw);
    if IsMissing(s) then None else Dec.Parse(Clean(s))
  }

  /** The other direction: when the stripped text is not missing and the
      cleaned text renders a valid decimal, that decimal is the result. */
  lemma {:induction false} ParseCoordComplete(raw: string, d: Dec.Decimal)
    requires !IsMissing(Strip(raw))
    requires Dec.Valid(d) && Dec.Render(d) == Clean(Strip(raw))
    ensures ParseCoord(raw) == Some(d)
  {
    Dec.ParseRender(d);
  }

  /** Decimal commas: two texts that agree once their commas are read as
      periods parse to the same result, so `-13,010079` means `-13.010079`. */
  lemma {:induction false} CommaInsensitive(a: string, b: string)
    requires ReplaceCommas(a) == ReplaceCommas(b)
    ensures ParseCoord(a) == ParseCoord(b)
  {
    var sa, sb := Strip(a), Strip(b);
    StripReplaceCommas(a);
    StripReplaceCommas(b);
    assert ReplaceCommas(sa) == ReplaceCommas(sb);
    assert IsMissing(sa) <==> IsMissing(sb) by {
      assert sa == [] <==> sb == [];
      if LowerAscii(sa) == "nan" {
        NanHasNoPoint(sa);
        ReplaceCommasNoPoint(sa, sb);
      }
      if LowerAscii(sb) == "nan" {
        NanHasNoPoint(sb);
        ReplaceCommasNoPoint(sb, sa);
      }
    }
  }

  lemma {:induction false} NanHasNoPoint(s: string)
    requires LowerAscii(s) == "nan"
    ensures Count(ReplaceCommas(s), '.') == 0
  {
    var r := ReplaceCommas(s);
    forall k | 0 <= k < |r| ensures r[k] != '.' {
      assert LowerAscii(s)[k] != '.';
    }
    CountAbsent(r, '.');
  }

  // ----- what parse_coord does with well-formed coordinates

  /** Text made only of digits, `.` and `-`. */
  predicate Numeric(s: string) {
    forall k :: 0 <= k < |s| ==> IsNumericChar(s[k])
  }

  lemma {:induction false} NumericAppend(x: string, y: string)
    requires Numeric(x) && Numeric(y)
    ensures Numeric(x + y)
  {
    assert forall k :: 0 <= k < |x + y| ==> (x + y)[k] == if k < |x| then x[k] else y[k - |x|];
  }

  lemma ReplaceCommasNoComma(s: string)
    requires Count(s, ',') == 0
    ensures ReplaceCommas(s) == s
  {
    CountZero(s, ',');
  }

  /** Non-empty numeric text passes the blank and `nan` tests and the comma
      replacement unchanged, so only the period fix and the final read act
      on it. */
  lemma {:induction false} NumericCoord(s: string)
    requires Numeric(s) && s != []
    ensures ParseCoord(s) == Dec.Parse(KeepNumeric(FixPeriods(s)))
  {
    NumericStripped(s);
    NumericPresent(s);
    NumericNoComma(s);
  }

  lemma {:induction false} NumericStripped(s: string)
    requires Numeric(s)
    ensures Strip(s) == s
  {
    assert IsStripped(s);
    assert [] + s + [] == s;
    StripPadded([], s, []);
  }

  lemma {:induction false} NumericPresent(s: string)
    requires Numeric(s) && s != []
    ensures !IsMissing(s)
  {
    assert LowerAscii(s)[0] == s[0];
  }

  lemma {:induction false} NumericNoComma(s: string)
    requires Numeric(s)
    ensures ReplaceCommas(s) == s
  {
    CountAbsent(s, ',');
    ReplaceCommasNoComma(s);
  }

  lemma {:induction false} RenderNumeric(d: Dec.Decimal)
    requires Dec.Valid(d)
    ensures Numeric(Dec.Render(d)) && Dec.Render(d) != []
    ensures Count(Dec.Render(d), '.') <= 1
  {
    var sign, pt := if d.negative then "-" else "", if d.point then "." else "";
    assert Dec.Render(d) == sign + d.whole + pt + d.frac;
    NumericAppend(sign, d.whole);
    NumericAppend(sign + d.whole, pt);
    NumericAppend(sign + d.whole + pt, d.frac);
    CountAbsent(d.whole, '.');
    CountAbsent(d.frac, '.');
    CountAppend(sign, d.whole, '.');
    CountAppend(sign + d.whole, pt, '.');
    CountAppend(sign + d.whole + pt, d.frac, '.');
  }

  /** Round trip: a coordinate written as a well-formed decimal reads back as
      exactly that decimal. */
  lemma {:induction false} ParseCoordRender(d: Dec.Decimal)
    requires Dec.Valid(d)
    ensures ParseCoord(Dec.Render(d)) == Some(d)
  {
    var s := Dec.Render(d);
    RenderNumeric(d);
    NumericCoordOnePoint(s);
    Dec.ParseRender(d);
  }

  lemma {:induction false} FirstIndexAfter(p: string, q: string)
    requires Count(p, '.') == 0
    ensures Count(p + "." + q, '.') > 0 && FirstIndex(p + "." + q, '.') == |p|
  {
    var s := p + "." + q;
    CountAppend(p, "." + q, '.');
    assert p + "." + q == p + ("." + q);
    if p != [] {
      assert s[1..] == p[1..] + "." + q;
      FirstIndexAfter(p[1..], q);
    }
  }

  /** The thousands-separator defect: a coordinate whose fraction was
      written with a second period, `[-]a.b.c`, reads as `[-]a.bc`. */
  lemma {:induction false} ThousandsRepair(neg: bool, a: string, b: string, c: string)
    requires Dec.AllDigits(a) && Dec.AllDigits(b) && Dec.AllDigits(c) && |a| + |b| + |c| > 0
    ensures ParseCoord((if neg then "-" else "") + a + "." + b + "." + c)
      == Some(Dec.Decimal(neg, a, true, b + c))
  {
    var p := (if neg then "-" else "") + a;
    var s := p + "." + b + "." + c;
    var d := Dec.Decimal(neg, a, true, b + c);
    assert Dec.AllDigits(b + c);
    RenderNumeric(d);
    ThousandsNumeric(p, b, c);
    CountAbsent(a, '.');
    CountAppend(if neg then "-" else "", a, '.');
    ThousandsFix(p, b, c);
    assert Dec.Render(d) == p + "." + (b + c);
    NumericCoord(s);
    Dec.ParseRender(d);
  }

  lemma {:induction false} ThousandsNumeric(p: string, b: string, c: string)
    requires Numeric(p) && Dec.AllDigits(b) && Dec.AllDigits(c)
    ensures Numeric(p + "." + b + "." + c)
  {
    NumericAppend(p, ".");
    NumericAppend(p + ".", b);
    NumericAppend(p + "." + b, ".");
    NumericAppend(p + "." + b + ".", c);
  }

  /** The period fix on two periods keeps the first and deletes the second. */
  lemma {:induction false} ThousandsFix(p: string, b: string, c: string)
    requires Count(p, '.') == 0 && Dec.AllDigits(b) && Dec.AllDigits(c)
    ensures FixPeriods(p + "." + b + "." + c) == p + "." + (b + c)
  {
    var rest := b + "." + c;
    var s := p + "." + rest;
    assert p + "." + b + "." + c == s;
    CountAbsent(b, '.');
    CountAbsent(c, '.');
    TwoPeriods(p, b, c);
    KeepFirstPointAfter(p, rest);
    RemoveSecondPeriod(b, c);
  }

  lemma {:induction false} TwoPeriods(p: string, b: string, c: string)
    requires Count(p, '.') == 0 && Count(b, '.') == 0 && Count(c, '.') == 0
    ensures Count(p + "." + (b + "." + c), '.') == 2
  {
    CountAppend(p + ".", b + "." + c, '.');
    CountAppend(p, ".", '.');
    CountAppend(b + ".", c, '.');
    CountAppend(b, ".", '.');
  }

  lemma {:induction false} KeepFirstPointAfter(p: string, rest: string)
    requires Count(p, '.') == 0
    ensures Count(p + "." + rest, '.') > 0
    ensures KeepFirstPoint(p + "." + rest) == p + "." + RemoveAll(rest, '.')
  {
    var s := p + "." + rest;
    FirstIndexAfter(p, rest);
    assert s[..|p| + 1] == p + ".";
    assert s[|p| + 1..] == rest;
  }

  lemma {:induction false} RemoveSecondPeriod(b: string, c: string)
    requires Count(b, '.') == 0 && Count(c, '.') == 0
    ensures RemoveAll(b + "." + c, '.') == b + c
  {
    RemoveAllAppend(b + ".", c, '.');
    RemoveAllAppend(b, ".", '.');
    RemoveAllAbsent(b, '.');
    RemoveAllAbsent(c, '.');
  }

  /** A decimal comma reads as a decimal point: `[-]a,b` reads as `[-]a.b`. */
  lemma {:induction false} DecimalComma(neg: bool, a: string, b: string)
    requires Dec.AllDigits(a) && Dec.AllDigits(b) && |a| + |b| > 0
    ensures ParseCoord((if neg then "-" else "") + a + "," + b) == Some(Dec.Decimal(neg, a, true, b))
  {
    var sign := if neg then "-" else "";
    var d := Dec.Decimal(neg, a, true, b);
    var s := sign + a + "," + b;
    assert Dec.Render(d) == sign + a + "." + b;
    CountAbsent(a, ',');
    CountAbsent(b, ',');
    CountAppend(sign, a, ',');
    ReplaceCommasNoComma(sign + a);
    ReplaceCommasNoComma(b);
    ReplaceCommasAppend(sign + a + ",", b);
    ReplaceCommasAppend(sign + a, ",");
    ReplaceCommasAppend(sign + a + ".", b);
    ReplaceCommasAppend(sign + a, ".");
    CommaInsensitive(s, Dec.Render(d));
    ParseCoordRender(d);
  }

  // ----- worked cases

  /** The case in app.py:20's comment: `-13.010.079` reads as the
      literal `-13.010079`, whose value is -13.010079. */
  lemma RepairedThousandsCase()
    ensures ParseCoord("-13.010.079") == Some(Dec.Decimal(true, "13", true, "010079"))
    ensures Dec.Value(Dec.Decimal(true, "13", true, "010079")) == -13.010079
  {
    var s := "-13.010.079";
    assert s == "-" + "13" + "." + "010" + "." + "079";
    assert "010" + "079" == "010079";
    ThousandsRepair(true, "13", "010", "079");
    RepairedThousandsValue();
  }

  lemma RepairedThousandsValue()
    ensures Dec.Value(Dec.Decimal(true, "13", true, "010079")) == -13.010079
  {
    DigitsThirteen();
    assert Dec.DigitsValue("010079") == 10079 by {
      assert "010" + "079" == "010079";
      ThreeDigits('0', '1', '0');
      ThreeDigits('0', '7', '9');
      Dec.DigitsValueAppend("010", "079");
      assert Dec.Pow10(3) == 1000;
    }
    assert Dec.Pow10(6) == 1000000 by {
      assert Dec.Pow10(3) == 1000;
    }
  }

  /** A second worked case: `-13.020.500` reads as the literal
      `-13.020500`, whose value is -13.0205. */
  lemma RepairedTrailingZerosCase()
    ensures ParseCoord("-13.020.500") == Some(Dec.Decimal(true, "13", true, "020500"))
    ensures Dec.Value(Dec.Decimal(true, "13", true, "020500")) == -13.0205
  {
    var s := "-13.020.500";
    assert s == "-" + "13" + "." + "020" + "." + "500";
    assert "020" + "500" == "020500";
    ThousandsRepair(true, "13", "020", "500");
    RepairedTrailingZerosValue();
  }

  lemma RepairedTrailingZerosValue()
    ensures Dec.Value(Dec.Decimal(true, "13", true, "020500")) == -13.0205
  {
    TrailingZeros();
    ShortFractionValue();
  }

  lemma TrailingZeros()
    ensures Dec.Value(Dec.Decimal(true, "13", true, "020500")) == Dec.Value(Dec.Decimal(true, "13", true, "0205"))
  {
    var d := Dec.Decimal(true, "13", true, "0205");
    var e := Dec.Decimal(true, "13", true, "02050");
    assert d.(frac := d.frac + "0") == e;
    Dec.TrailingZero(d);
    assert e.(frac := e.frac + "0") == Dec.Decimal(true, "13", true, "020500");
    Dec.TrailingZero(e);
  }

  lemma ShortFractionValue()
    ensures Dec.Value(Dec.Decimal(true, "13", true, "0205")) == -13.0205
  {
    DigitsThirteen();
    assert Dec.DigitsValue("0205") == 205 by {
      assert "020" + "5" == "0205";
      ThreeDigits('0', '2', '0');
      Dec.DigitsValueAppend("020", "5");
      assert "" + ['5'] == "5";
      Dec.DigitsValueSnoc("", '5');
    }
    assert Dec.Pow10(4) == 10000;
  }

  /** Numeric text with at most one period reaches the decimal reader
      unchanged. */
  lemma {:induction false} NumericCoordOnePoint(s: string)
    requires Numeric(s) && s != [] && Count(s, '.') <= 1
    ensures ParseCoord(s) == Dec.Parse(s)
  {
    NumericCoord(s);
  }

  /** Cleaned texts that are not decimals give NaN rather than an error:
      a lone sign, a lone point, a sign in the middle and a doubled sign. */
  lemma RejectedCoords()
    ensures ParseCoord("-") == None && ParseCoord(".") == None
    ensures ParseCoord("1-2") == None && ParseCoord("--1") == None
  {
    Dec.ParseRejects();
    RejectedShort();
    RejectedSigns();
  }

  lemma RejectedShort()
    ensures ParseCoord("-") == Dec.Parse("-") && ParseCoord(".") == Dec.Parse(".")
  {
    OneCharCoord('-');
    OneCharCoord('.');
  }

  lemma {:induction false} OneCharCoord(x: char)
    requires IsNumericChar(x)
    ensures ParseCoord([x]) == Dec.Parse([x])
  {
    assert [x][1..] == [];
    assert Count([x], '.') <= 1;
    NumericCoordOnePoint([x]);
  }

  lemma RejectedSigns()
    ensures ParseCoord("1-2") == Dec.Parse("1-2") && ParseCoord("--1") == Dec.Parse("--1")
  {
    NoPointCoord('1', '-', '2');
    NoPointCoord('-', '-', '1');
  }

  lemma {:induction false} NoPointCoord(x: char, y: char, z: char)
    requires IsNumericChar(x) && IsNumericChar(y) && IsNumericChar(z)
    requires x != '.' && y != '.' && z != '.'
    ensures ParseCoord([x, y, z]) == Dec.Parse([x, y, z])
  {
    var s := [x, y, z];
    assert forall k :: 0 <= k < |s| ==> s[k] != '.';
    CountAbsent(s, '.');
    NumericCoordOnePoint(s);
  }

  /** Blank cells and `nan` in any case, padded or not, give NaN. */
  lemma MissingCoords()
    ensures ParseCoord("") == None && ParseCoord("nan") == None
    ensures ParseCoord("NaN") == None && ParseCoord(" nan ") == None
  {
    MissingPlain();
    MissingMixedCase();
    MissingPadded();
  }

  /** Three characters without whitespace at either end strip to
      themselves. */
  lemma StrippedThree(a: char, b: char, c: char)
    requires !IsSpace(a) && !IsSpace(c)
    ensures Strip([a, b, c]) == [a, b, c]
  {
    var t := [a, b, c];
    assert IsStripped(t);
    assert [] + t + [] == t;
    StripPadded([], t, []);
  }

  /** Any three characters spelling `nan`, in any case, are the NaN token. */
  lemma NanSpelling(a: char, b: char, c: char)
    requires (a == 'n' || a == 'N') && (b == 'a' || b == 'A') && (c == 'n' || c == 'N')
    ensures IsMissing([a, b, c])
  {
  }

  /** ... and stay so after stripping. */
  lemma NanStripped(a: char, b: char, c: char)
    requires (a == 'n' || a == 'N') && (b == 'a' || b == 'A') && (c == 'n' || c == 'N')
    ensures IsMissing(Strip([a, b, c]))
  {
    StrippedThree(a, b, c);
    NanSpelling(a, b, c);
  }

  lemma MissingPlain()
    ensures IsMissing(Strip("nan"))
  {
    NanStripped('n', 'a', 'n');
  }

  lemma MissingMixedCase()
    ensures IsMissing(Strip("NaN"))
  {
    NanStripped('N', 'a', 'N');
  }

  lemma MissingPadded()
    ensures IsMissing(Strip(" nan "))
  {
    assert Strip(" nan ") == "nan" by {
      assert AllSpace(" ");
      assert " " + "nan" + " " == " nan ";
      StripPadded(" ", "nan", " ");
    }
    assert "nan" == ['n', 'a', 'n'];
    NanSpelling('n', 'a', 'n');
  }

  /** The value of a three-digit string, digit by digit. */
  lemma ThreeDigits(a: char, b: char, c: char)
    ensures Dec.DigitsValue([a, b, c]) ==
      (Dec.DigitValue(a) * 10 + Dec.DigitValue(b)) * 10 + Dec.DigitValue(c)
  {
    assert [] + [a] == [a] && [a] + [b] == [a, b] && [a, b] + [c] == [a, b, c];
    Dec.DigitsValueSnoc([], a);
    Dec.DigitsValueSnoc([a], b);
    Dec.DigitsValueSnoc([a, b], c);
  }

  lemma DigitsThirteen()
    ensures Dec.DigitsValue("13") == 13
  {
    assert "" + ['1'] == "1" && "1" + ['3'] == "13";
    Dec.DigitsValueSnoc("", '1');
    Dec.DigitsValueSnoc("1", '3');
  }}
