/** String operations of the Python runtime that the assistant relies on:
    `str.lower()`, `str.strip()`, the `in` substring test, `any(...)` over a
    keyword list, `"\n".join(...)` and `str(n)` for a natural number. */
module Text {

  // ---------------------------------------------------------------------------
  // Case folding (ASCII only)
  // ---------------------------------------------------------------------------

  function LowerChar(c: char): char {
    if 'A' <= c <= 'Z' then (c as int + 32) as char else c
  }

  /** `s.lower()`, restricted to ASCII letters. */
  function Lower(s: string): (r: string)
    ensures |r| == |s|
    ensures forall i :: 0 <= i < |s| ==> r[i] == LowerChar(s[i])
  {
    if s == [] then [] else [LowerChar(s[0])] + Lower(s[1..])
  }

  lemma {:induction false} LowerConcat(a: string, b: string)
    ensures Lower(a + b) == Lower(a) + Lower(b)
  {
    var l := Lower(a + b);
    assert forall i :: 0 <= i < |a| + |b| ==> l[i] == (Lower(a) + Lower(b))[i] by {
      forall i | 0 <= i < |a| + |b| ensures l[i] == (Lower(a) + Lower(b))[i] {
        if i < |a| { assert (a + b)[i] == a[i]; } else { assert (a + b)[i] == b[i - |a|]; }
      }
    }
  }

  /** Text with no upper-case ASCII letter is its own lower-case form. */
  lemma LowerIdentity(s: string)
    requires forall i :: 0 <= i < |s| ==> !('A' <= s[i] <= 'Z')
    ensures Lower(s) == s
  {
  }

  // ---------------------------------------------------------------------------
  // Substring test
  // ---------------------------------------------------------------------------

  /** `sub` sits in `s` starting at index `i`. */
  predicate OccursAt(s: string, sub: string, i: int) {
    0 <= i && i + |sub| <= |s| && s[i..i + |sub|] == sub
  }

  /** Python's `sub in s`; the empty string is in every string. */
  predicate Contains(s: string, sub: string)
    decreases |s|
  {
    if |sub| > |s| then false
    else if s[..|sub|] == sub then true
    else |s| > 0 && Contains(s[1..], sub)
  }

  /** An occurrence past the first character is an occurrence in the tail. */
  lemma OccursShift(s: string, sub: string, i: int)
    requires |s| > 0 && i > 0
    ensures OccursAt(s, sub, i) <==> OccursAt(s[1..], sub, i - 1)
  {
    if i + |sub| <= |s| {
      assert s[1..][i - 1..i - 1 + |sub|] == s[i..i + |sub|];
    }
  }

  /** The recursive test agrees with the positional definition, both ways. */
  lemma {:induction false} ContainsIff(s: string, sub: string)
    ensures Contains(s, sub) <==> exists i :: OccursAt(s, sub, i)
    decreases |s|
  {
    if |sub| > |s| {
      assert forall i :: !OccursAt(s, sub, i);
    } else if s[..|sub|] == sub {
      assert OccursAt(s, sub, 0);
    } else {
      assert |s| > 0;
      ContainsIff(s[1..], sub);
      if Contains(s[1..], sub) {
        var i :| OccursAt(s[1..], sub, i);
        OccursShift(s, sub, i + 1);
      } else {
        forall i | i > 0 ensures !OccursAt(s, sub, i) {
          OccursShift(s, sub, i);
        }
        assert !OccursAt(s, sub, 0);
      }
    }
  }

  lemma OccursAtWitness(s: string, sub: string, i: int)
    requires OccursAt(s, sub, i)
    ensures Contains(s, sub)
  {
    ContainsIff(s, sub);
  }

  /** The middle part of a concatenation is in it. */
  lemma ContainsMiddle(a: string, x: string, b: string)
    ensures Contains(a + x + b, x)
  {
    assert (a + x + b)[|a|..|a| + |x|] == x;
    OccursAtWitness(a + x + b, x, |a|);
  }

  /** An occurrence that spans position `p` contains the character there. */
  lemma SeparatorInside(s: string, k: string, i: int, p: int)
    requires OccursAt(s, k, i) && i <= p < i + |k|
    ensures s[p] in k
  {
    assert k[p - i] == s[i..i + |k|][p - i] == s[p];
  }

  /** Each filled slot of a two-slot template is in the result. */
  lemma ContainsSlots2(a: string, x: string, b: string, y: string, c: string)
    ensures Contains(a + x + b + y + c, x) && Contains(a + x + b + y + c, y)
  {
    assert a + x + b + y + c == a + x + (b + y + c);
    ContainsMiddle(a, x, b + y + c);
    ContainsMiddle(a + x + b, y, c);
  }

  /** Each filled slot of a three-slot template is in the result. */
  lemma ContainsSlots3(a: string, x: string, b: string, y: string, c: string, z: string, d: string)
    ensures var s := a + x + b + y + c + z + d;
      Contains(s, x) && Contains(s, y) && Contains(s, z)
  {
    assert a + x + b + y + c + z + d == a + x + (b + y + c + z + d);
    assert a + x + b + y + c + z + d == a + x + b + y + (c + z + d);
    ContainsMiddle(a, x, b + y + c + z + d);
    ContainsMiddle(a + x + b, y, c + z + d);
    ContainsMiddle(a + x + b + y + c, z, d);
  }

  /** An occurrence of a keyword without `c` in `a + [c] + b` lies wholly
      in `a` or wholly in `b`. */
  lemma SplitOccurrence(a: string, c: char, b: string, k: string, i: int)
    requires c !in k && OccursAt(a + [c] + b, k, i)
    ensures OccursAt(a, k, i) || OccursAt(b, k, i - |a| - 1)
  {
    var s := a + [c] + b;
    if i + |k| <= |a| {
      assert a[i..i + |k|] == s[i..i + |k|];
    } else if i > |a| {
      assert s[|a| + 1..] == b;
      assert s[i..i + |k|] == b[i - |a| - 1..i - |a| - 1 + |k|];
    } else {
      SeparatorInside(s, k, i, |a|);
      assert false;
    }
  }

  /** An occurrence in `a` or in `b` is one in `a + [c] + b`. */
  lemma JoinOccurrence(a: string, c: char, b: string, k: string, i: int)
    ensures OccursAt(a, k, i) ==> OccursAt(a + [c] + b, k, i)
    ensures OccursAt(b, k, i) ==> OccursAt(a + [c] + b, k, |a| + 1 + i)
  {
    var s := a + [c] + b;
    if OccursAt(a, k, i) {
      assert s[i..i + |k|] == a[i..i + |k|];
    }
    if OccursAt(b, k, i) {
      assert s[|a| + 1 + i..|a| + 1 + i + |k|] == b[i..i + |k|];
    }
  }

  /** A keyword that does not contain separator `c` occurs in `a + [c] + b`
      exactly when it occurs in `a` or in `b`. */
  lemma ContainsAroundSeparator(a: string, c: char, b: string, k: string)
    requires c !in k
    ensures Contains(a + [c] + b, k) <==> Contains(a, k) || Contains(b, k)
  {
    var s := a + [c] + b;
    ContainsIff(s, k);
    ContainsIff(a, k);
    ContainsIff(b, k);
    if Contains(s, k) {
      var i :| OccursAt(s, k, i);
      SplitOccurrence(a, c, b, k, i);
    }
    if Contains(a, k) {
      var i :| OccursAt(a, k, i);
      JoinOccurrence(a, c, b, k, i);
    }
    if Contains(b, k) {
      var i :| OccursAt(b, k, i);
      JoinOccurrence(a, c, b, k, i);
    }
  }

  /** `any(k in text for k in keywords)`, scanning left to right. */
  predicate ContainsAny(text: string, keywords: seq<string>)
    ensures ContainsAny(text, keywords) <==> exists k :: k in keywords && Contains(text, k)
  {
    if keywords == [] then false
    else
      var rest := ContainsAny(text, keywords[1..]);
      assert forall k :: k in keywords <==> k == keywords[0] || k in keywords[1..];
      Contains(text, keywords[0]) || rest
  }

  // ---------------------------------------------------------------------------
  // Whitespace stripping
  // ---------------------------------------------------------------------------

  /** The ASCII characters for which `str.isspace()` holds. */
  predicate IsSpace(c: char) {
    c == ' ' || 9 <= c as int <= 13 || 28 <= c as int <= 31
  }

  function TrimStart(s: string): (r: string)
    ensures |r| <= |s| && r == s[|s| - |r|..]
    ensures forall i :: 0 <= i < |s| - |r| ==> IsSpace(s[i])
    ensures r == [] || !IsSpace(r[0])
  {
    if s != [] && IsSpace(s[0]) then TrimStart(s[1..]) else s
  }

  function TrimEnd(s: string): (r: string)
    ensures |r| <= |s| && r == s[..|r|]
    ensures forall i :: |r| <= i < |s| ==> IsSpace(s[i])
    ensures r == [] || !IsSpace(r[|r| - 1])
  {
    if s != [] && IsSpace(s[|s| - 1]) then TrimEnd(s[..|s| - 1]) else s
  }

  /** `r` is the block of `s` at offset `i`, with only whitespace around it. */
  predicate CutFrom(s: string, r: string, i: int) {
    0 <= i <= |s| - |r| && r == s[i..i + |r|]
    && (forall j :: 0 <= j < i ==> IsSpace(s[j]))
    && (forall j :: i + |r| <= j < |s| ==> IsSpace(s[j]))
  }

  /** `s.strip()`. */
  function Strip(s: string): string {
    TrimEnd(TrimStart(s))
  }

  /** The stripped text is a contiguous block of `s` with only whitespace
      cut off around it, and it has no whitespace at either end. */
  lemma StripSpec(s: string)
    ensures exists i :: CutFrom(s, Strip(s), i)
    ensures Strip(s) == [] || (!IsSpace(Strip(s)[0]) && !IsSpace(Strip(s)[|Strip(s)| - 1]))
  {
    var t := TrimStart(s);
    var r := TrimEnd(t);
    assert r == Strip(s);
    var i := |s| - |t|;
    assert r == s[i..i + |r|];
    forall j | i + |r| <= j < |s| ensures IsSpace(s[j]) {
      assert s[j] == t[j - i];
    }
    assert CutFrom(s, r, i);
  }

  /** The stripped text is empty exactly when `s` is all whitespace. */
  lemma StripEmpty(s: string)
    ensures Strip(s) == [] <==> forall j :: 0 <= j < |s| ==> IsSpace(s[j])
  {
    var t := TrimStart(s);
    var r := TrimEnd(t);
    assert r == Strip(s);
    if r == [] {
      assert t == [];
    }
  }

  lemma StripIdempotent(s: string)
    ensures Strip(Strip(s)) == Strip(s)
  {
    var r := Strip(s);
    if r != [] {
      assert TrimStart(r) == r;
      assert TrimEnd(r) == r;
    }
  }

  // ---------------------------------------------------------------------------
  // Joining
  // ---------------------------------------------------------------------------

  /** `sep.join(parts)`. */
  function Join(parts: seq<string>, sep: string): string {
    if |parts| == 0 then ""
    else if |parts| == 1 then parts[0]
    else Join(parts[..|parts| - 1], sep) + sep + parts[|parts| - 1]
  }

  /** Joining two non-empty runs puts exactly one separator between them. */
  lemma {:induction false} JoinAppend(a: seq<string>, b: seq<string>, sep: string)
    requires a != [] && b != []
    ensures Join(a + b, sep) == Join(a, sep) + sep + Join(b, sep)
    decreases |b|
  {
    if |b| == 1 {
      assert (a + b)[..|a + b| - 1] == a;
    } else {
      var b' := b[..|b| - 1];
      assert (a + b)[..|a + b| - 1] == a + b';
      JoinAppend(a, b', sep);
    }
  }

  // ---------------------------------------------------------------------------
  // Decimal rendering
  // ---------------------------------------------------------------------------

  function DigitChar(d: nat): char
    requires d < 10
  {
    ('0' as int + d) as char
  }

  /** `str(n)` for a natural number. */
  function NatToString(n: nat): (r: string)
    ensures |r| >= 1
    ensures forall i :: 0 <= i < |r| ==> '0' <= r[i] <= '9'
    ensures r[0] == '0' <==> n == 0
  {
    if n < 10 then [DigitChar(n)] else NatToString(n / 10) + [DigitChar(n % 10)]
  }

  /** Reads a string of decimal digits back as a number. */
  function ParseDecimal(s: string): nat
    requires forall i :: 0 <= i < |s| ==> '0' <= s[i] <= '9'
  {
    if s == [] then 0
    else 10 * ParseDecimal(s[..|s| - 1]) + (s[|s| - 1] as int - '0' as int)
  }

  /** The decimal rendering is faithful: reading it back gives the number. */
  lemma {:induction false} NatToStringRoundTrip(n: nat)
    ensures ParseDecimal(NatToString(n)) == n
  {
    if n >= 10 {
      NatToStringRoundTrip(n / 10);
      var s := NatToString(n);
      assert s[..|s| - 1] == NatToString(n / 10);
    }
  }
}
