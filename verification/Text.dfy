/** What the models need of Unicode text. */
module Text {

  /** Unicode white space. */
  predicate IsSpace(c: char) {
    var n := c as int;
    || 0x9 <= n <= 0xD || n == 0x20 || n == 0x85 || n == 0xA0 || n == 0x1680 || 0x2000 <= n <= 0x200A
    || n == 0x2028 || n == 0x2029 || n == 0x202F || n == 0x205F || n == 0x3000
  }

  /** The 25 characters with the Unicode property White_Space. */
  lemma SpacesSpelled(c: char)
    ensures IsSpace(c) <==>
      c as int in {9, 10, 11, 12, 13, 32, 133, 160, 5760, 8192, 8193, 8194, 8195, 8196, 8197, 8198, 8199, 8200, 8201,
                   8202, 8232, 8233, 8239, 8287, 12288}
  {
  }

  predicate AllSpace(s: string) {
    forall i :: 0 <= i < |s| ==> IsSpace(s[i])
  }

  function TrimStart(s: string): string {
    if s != [] && IsSpace(s[0]) then TrimStart(s[1..]) else s
  }

  function TrimEnd(s: string): string {
    if s != [] && IsSpace(s[|s| - 1]) then TrimEnd(s[..|s| - 1]) else s
  }

  function Trim(s: string): string {
    TrimEnd(TrimStart(s))
  }

  lemma {:induction false} TrimStartPadded(a: string, s: string)
    requires AllSpace(a) && (s == "" || !IsSpace(s[0]))
    ensures TrimStart(a + s) == s
    decreases |a|
  {
    hide IsSpace;
    if a == "" {
      assert a + s == s;
    } else {
      assert (a + s)[1..] == a[1..] + s;
      TrimStartPadded(a[1..], s);
    }
  }

  lemma {:induction false} TrimEndPadded(s: string, b: string)
    requires AllSpace(b) && (s == "" || !IsSpace(s[|s| - 1]))
    ensures TrimEnd(s + b) == s
    decreases |b|
  {
    hide IsSpace;
    if b == "" {
      assert s + b == s;
    } else {
      assert (s + b)[..|s + b| - 1] == s + b[..|b| - 1];
      TrimEndPadded(s, b[..|b| - 1]);
    }
  }

  /** Trimming takes away the white space at both ends and nothing else. */
  lemma TrimPadded(a: string, s: string, b: string)
    requires AllSpace(a) && AllSpace(b)
    requires s != "" ==> !IsSpace(s[0]) && !IsSpace(s[|s| - 1])
    ensures Trim(a + s + b) == s
  {
    hide IsSpace, TrimStart, TrimEnd;
    if s == "" {
      TrimStartPadded(a + b, "");
      assert a + s + b == a + b && a + b + "" == a + b;
      TrimEndPadded("", "");
      assert "" + "" == "";
    } else {
      assert a + s + b == a + (s + b);
      TrimStartPadded(a, s + b);
      TrimEndPadded(s, b);
    }
  }

  /** Every text is padding, a trimmed text, and padding. */
  lemma {:induction false} Padded(t: string) returns (a: string, s: string, b: string)
    ensures t == a + s + b
    ensures AllSpace(a) && AllSpace(b)
    ensures s != "" ==> !IsSpace(s[0]) && !IsSpace(s[|s| - 1])
    decreases |t|
  {
    hide IsSpace;
    if t == "" {
      a, s, b := "", "", "";
    } else if IsSpace(t[0]) {
      a, s, b := Padded(t[1..]);
      assert t == [t[0]] + t[1..];
      assert t == ([t[0]] + a) + s + b;
      a := [t[0]] + a;
    } else if IsSpace(t[|t| - 1]) {
      a, s, b := Padded(t[..|t| - 1]);
      assert t == t[..|t| - 1] + [t[|t| - 1]];
      assert t == a + s + (b + [t[|t| - 1]]);
      b := b + [t[|t| - 1]];
    } else {
      a, s, b := "", t, "";
    }
  }

  lemma TrimmedAway(t: string)
    ensures Trim(t) == "" <==> AllSpace(t)
  {
    var a, s, b := Padded(t);
    hide IsSpace, Trim;
    TrimPadded(a, s, b);
    if s != "" {
      assert t[|a|] == s[0];
    }
  }

  /** The position of the first `c`, or the length. */
  function IndexOf(s: string, c: char): (n: nat)
    ensures n <= |s|
    ensures c !in s[..n]
    ensures n < |s| ==> s[n] == c
  {
    if s == [] || s[0] == c then 0 else 1 + IndexOf(s[1..], c)
  }

  lemma {:induction false} IndexAfter(a: string, c: char, b: string)
    requires c !in a
    ensures IndexOf(a + [c] + b, c) == |a|
    decreases |a|
  {
    if a == "" {
      assert a + [c] + b == [c] + b;
    } else {
      assert (a + [c] + b)[1..] == a[1..] + [c] + b;
      IndexAfter(a[1..], c, b);
    }
  }

  predicate IsControl(c: char) {
    var n := c as int;
    n <= 0x1F || 0x7F <= n <= 0x9F
  }

  /** The number of bytes of the text in UTF-8 (section 3 of RFC 3629). */
  function Utf8Length(s: string): nat {
    if s == [] then 0
    else
      var n := s[0] as int;
      (if n < 0x80 then 1 else if n < 0x800 then 2 else if n < 0x1_0000 then 3 else 4) + Utf8Length(s[1..])
  }

  function LowerChar(c: char): char {
    if 'A' <= c <= 'Z' then c + 32 as char else c
  }

  /** ASCII lowercase. */
  function Lower(t: string): (r: string)
    ensures |r| == |t|
    ensures forall i :: 0 <= i < |t| ==> r[i] == LowerChar(t[i])
  {
    seq(|t|, i requires 0 <= i < |t| => LowerChar(t[i]))
  }

  function Join(parts: seq<string>, separator: string): string {
    if parts == [] then []
    else if |parts| == 1 then parts[0]
    else parts[0] + separator + Join(parts[1..], separator)
  }

  /** The same up to ASCII case. */
  predicate SameLetter(a: char, b: char) {
    || a == b
    || ('A' <= a <= 'Z' && b as int == a as int + 32)
    || ('A' <= b <= 'Z' && a as int == b as int + 32)
  }

  predicate SameText(a: string, b: string) {
    |a| == |b| && forall i :: 0 <= i < |a| ==> SameLetter(a[i], b[i])
  }

  lemma SameLowerChar(x: char, y: char)
    ensures LowerChar(x) == LowerChar(y) <==> SameLetter(x, y)
  {
  }

  /** Lowercase forgets ASCII case and nothing else. */
  lemma LowerForgetsCase(a: string, b: string)
    ensures Lower(a) == Lower(b) <==> SameText(a, b)
  {
    hide LowerChar, SameLetter;
    forall x: char, y: char ensures LowerChar(x) == LowerChar(y) <==> SameLetter(x, y) {
      SameLowerChar(x, y);
    }
    if Lower(a) == Lower(b) {
      assert |Lower(a)| == |Lower(b)|;
      forall i | 0 <= i < |a| ensures SameLetter(a[i], b[i]) {
        assert Lower(a)[i] == Lower(b)[i];
      }
    }
  }
}
