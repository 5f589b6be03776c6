/** Python string operations the pipeline relies on: `str.strip()` with no
    argument and `str.lower()`. */
module Text {

  /** Python's `str.isspace` set, which is what `str.strip()` removes:
      the ASCII controls 0x09-0x0D and 0x1C-0x1F, the space, NEL, NBSP and
      the Unicode space separators and line/paragraph separators. */
  predicate IsSpace(c: char) {
    var n := c as int;
    (0x09 <= n <= 0x0D) || (0x1C <= n <= 0x20) || n == 0x85 || n == 0xA0 ||
    n == 0x1680 || (0x2000 <= n <= 0x200A) || n == 0x2028 || n == 0x2029 ||
    n == 0x202F || n == 0x205F || n == 0x3000
  }

  predicate AllSpace(s: string) {
    forall k :: 0 <= k < |s| ==> IsSpace(s[k])
  }

  /** `s` begins and ends with a non-space character, or is empty. */
  predicate IsStripped(s: string) {
    s == [] || (!IsSpace(s[0]) && !IsSpace(s[|s| - 1]))
  }

  /** Removes the leading whitespace: what is left is a suffix of `s` whose
      first character is not a space (`TrimStartDropsSpaces` shows that
      every character dropped is one). */
  function TrimStart(s: string): (r: string)
    ensures |r| <= |s| && r == s[|s| - |r|..]
    ensures r == [] || !IsSpace(r[0])
  {
    if |s| > 0 && IsSpace(s[0]) then TrimStart(s[1..]) else s
  }

  /** Removes the trailing whitespace: what is left is a prefix of `s` whose
      last character is not a space (`TrimEndDropsSpaces` shows that every
      character dropped is one). */
  function TrimEnd(s: string): (r: string)
    ensures |r| <= |s| && r == s[..|r|]
    ensures r == [] || !IsSpace(r[|r| - 1])
  {
    if |s| > 0 && IsSpace(s[|s| - 1]) then TrimEnd(s[..|s| - 1]) else s
  }

  lemma {:induction false} TrimStartDropsSpaces(s: string)
    ensures AllSpace(s[..|s| - |TrimStart(s)|])
  {
    if |s| > 0 && IsSpace(s[0]) {
      TrimStartDropsSpaces(s[1..]);
      var n := |s| - |TrimStart(s)|;
      assert s[..n] == [s[0]] + s[1..][..n - 1];
    }
  }

  lemma {:induction false} TrimEndDropsSpaces(s: string)
    ensures AllSpace(s[|TrimEnd(s)|..])
  {
    if |s| > 0 && IsSpace(s[|s| - 1]) {
      var u := s[..|s| - 1];
      TrimEndDropsSpaces(u);
      var n := |TrimEnd(s)|;
      assert s[n..] == u[n..] + [s[|s| - 1]];
    }
  }

  /** `str.strip()`: what is left of `s` once the whitespace on both ends
      is removed (`StripDecomposes` and `StripPadded` pin it down). */
  function Strip(s: string): (r: string)
    ensures IsStripped(r) && |r| <= |s|
  {
    var t := TrimStart(s);
    var r := TrimEnd(t);
    assert r != [] ==> r[0] == t[0];
    r
  }

  /** The whitespace `Strip` removes from the front of `s`. */
  function Leading(s: string): string {
    s[..|s| - |TrimStart(s)|]
  }

  /** The whitespace `Strip` removes from the back of `s`. */
  function Trailing(s: string): string {
    TrimStart(s)[|Strip(s)|..]
  }

  /** Every text is its stripped core padded on both sides with whitespace. */
  lemma StripDecomposes(s: string)
    ensures s == Leading(s) + Strip(s) + Trailing(s)
    ensures AllSpace(Leading(s)) && AllSpace(Trailing(s))
  {
    StripSplits(s);
    TrimStartDropsSpaces(s);
    TrimEndDropsSpaces(TrimStart(s));
  }

  lemma {:induction false} StripSplits(s: string)
    ensures s == Leading(s) + Strip(s) + Trailing(s)
  {
    var t := TrimStart(s);
    Glue(s, t, TrimEnd(t));
  }

  /** A suffix `t` of `s` and a prefix `r` of `t` cut `s` into three pieces. */
  lemma Glue(s: string, t: string, r: string)
    requires |t| <= |s| && t == s[|s| - |t|..]
    requires |r| <= |t| && r == t[..|r|]
    ensures s == s[..|s| - |t|] + r + t[|r|..]
  {
    assert r + t[|r|..] == t;
    assert s[..|s| - |t|] + t == s;
  }

  /** Conversely, a stripped text padded on both sides with whitespace strips
      back to itself; with `StripDecomposes` this characterises `Strip`. */
  lemma {:induction false} StripPadded(lead: string, t: string, trail: string)
    requires AllSpace(lead) && AllSpace(trail) && IsStripped(t)
    ensures Strip(lead + t + trail) == t
  {
    var s := lead + t + trail;
    if t == [] {
      assert AllSpace(s) by {
        forall k | 0 <= k < |s| ensures IsSpace(s[k]) {
          if k < |lead| { assert s[k] == lead[k]; } else { assert s[k] == trail[k - |lead|]; }
        }
      }
    } else {
      assert s == lead + (t + trail);
      TrimStartPadded(lead, t + trail);
      TrimEndPadded(t, trail);
    }
  }

  lemma {:induction false} TrimStartPadded(lead: string, u: string)
    requires AllSpace(lead) && (u == [] || !IsSpace(u[0]))
    ensures TrimStart(lead + u) == u
  {
    if lead != [] {
      assert (lead + u)[0] == lead[0];
      assert (lead + u)[1..] == lead[1..] + u;
      TrimStartPadded(lead[1..], u);
    }
  }

  lemma {:induction false} TrimEndPadded(u: string, trail: string)
    requires AllSpace(trail) && (u == [] || !IsSpace(u[|u| - 1]))
    ensures TrimEnd(u + trail) == u
  {
    if trail != [] {
      var n := |trail| - 1;
      assert (u + trail)[..|u + trail| - 1] == u + trail[..n];
      TrimEndPadded(u, trail[..n]);
    }
  }

  /** `str.strip()` is idempotent. */
  lemma {:induction false} StripIdempotent(s: string)
    ensures Strip(Strip(s)) == Strip(s)
  {
    var r := Strip(s);
    assert r == [] + r + [];
    StripPadded([], r, []);
  }

  /** ASCII case mapping of one character. */
  function Lower(c: char): char {
    if 'A' <= c <= 'Z' then (c as int + 32) as char else c
  }

  /** `str.lower()` on the ASCII letters: same length, each upper-case ASCII
      letter becomes its own lower-case letter (32 code points on), and every
      other character is kept. */
  function LowerAscii(s: string): (r: string)
    ensures |r| == |s|
    ensures forall k :: 0 <= k < |r| ==> !('A' <= r[k] <= 'Z')
    ensures forall k :: 0 <= k < |s| && 'A' <= s[k] <= 'Z' ==> 'a' <= r[k] <= 'z'
    ensures forall k :: 0 <= k < |s| && 'A' <= s[k] <= 'Z' ==> r[k] as int == s[k] as int + 32
    ensures forall k :: 0 <= k < |s| && !('A' <= s[k] <= 'Z') ==> r[k] == s[k]
  {
    if s == [] then [] else [Lower(s[0])] + LowerAscii(s[1..])
  }

  /** Lower-casing twice is lower-casing once. */
  lemma {:induction false} LowerAsciiIdempotent(s: string)
    ensures LowerAscii(LowerAscii(s)) == LowerAscii(s)
  {
    var r := LowerAscii(s);
    assert LowerAscii(r) == r by {
      LowerAsciiKeeps(r);
    }
  }

  /** Text without upper-case ASCII letters is left as it is. */
  lemma {:induction false} LowerAsciiKeeps(s: string)
    requires forall k :: 0 <= k < |s| ==> !('A' <= s[k] <= 'Z')
    ensures LowerAscii(s) == s
  {
    var r := LowerAscii(s);
    assert forall k :: 0 <= k < |s| ==> r[k] == s[k];
  }

  /** Lower-casing never turns a space into a non-space or back, so a
      stripped text stays stripped. */
  lemma LowerKeepsStripped(s: string)
    requires IsStripped(s)
    ensures IsStripped(LowerAscii(s))
  {
  }
}
