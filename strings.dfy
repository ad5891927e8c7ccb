/** String helpers standing for the JavaScript string operations the renderers use. */
module Strings {

  /** `items.join(sep)`. */
  function Join(items: seq<string>, sep: string): string
  {
    if |items| == 0 then ""
    else if |items| == 1 then items[0]
    else items[0] + sep + Join(items[1..], sep)
  }

  /** A non-empty join begins with its first item. */
  lemma {:induction false} JoinStartsWithFirst(items: seq<string>, sep: string)
    requires |items| > 0
    ensures |Join(items, sep)| >= |items[0]|
    ensures Join(items, sep)[..|items[0]|] == items[0]
  {
    if |items| > 1 {
      var rest := sep + Join(items[1..], sep);
      assert Join(items, sep) == items[0] + rest;
    }
  }

  /** `s.replace(/c/g, rep)` for a pattern that is one literal character: every occurrence of `c`
      becomes `rep`, and the text that `rep` inserts is not scanned again. */
  function ReplaceAll(s: string, c: char, rep: string): string
  {
    if s == [] then ""
    else (if s[0] == c then rep else [s[0]]) + ReplaceAll(s[1..], c, rep)
  }

  /** A string without `c` is left as it is, and when `rep` has no `c` none is left. */
  lemma {:induction false} ReplaceAllFacts(s: string, c: char, rep: string)
    ensures c !in s ==> ReplaceAll(s, c, rep) == s
    ensures c !in rep ==> c !in ReplaceAll(s, c, rep)
  {
    if s != [] {
      ReplaceAllFacts(s[1..], c, rep);
      assert s == [s[0]] + s[1..];
    }
  }

  /** Replacing a single character distributes over concatenation. */
  lemma {:induction false} ReplaceAllAppend(a: string, b: string, c: char, rep: string)
    ensures ReplaceAll(a + b, c, rep) == ReplaceAll(a, c, rep) + ReplaceAll(b, c, rep)
  {
    if a != [] {
      assert (a + b)[0] == a[0];
      assert (a + b)[1..] == a[1..] + b;
      ReplaceAllAppend(a[1..], b, c, rep);
    } else {
      assert a + b == b;
    }
  }

  predicate IsDigit(c: char)
  {
    '0' <= c <= '9'
  }

  function DigitChar(d: nat): (c: char)
    requires d < 10
    ensures IsDigit(c) && (c as int) - ('0' as int) == d
  {
    (('0' as int) + d) as char
  }

  /** The decimal text a JavaScript template literal gives a non-negative integer (`${n}`). */
  function NatToString(n: nat): (r: string)
    ensures |r| >= 1
    ensures forall i :: 0 <= i < |r| ==> IsDigit(r[i])
    ensures |r| > 1 ==> r[0] != '0'
  {
    if n < 10 then [DigitChar(n)] else NatToString(n / 10) + [DigitChar(n % 10)]
  }

  /** Reads a string of decimal digits back as a number. */
  function ParseNat(s: string): nat
    requires forall i :: 0 <= i < |s| ==> IsDigit(s[i])
  {
    if s == [] then 0
    else
      assert IsDigit(s[|s| - 1]);
      ParseNat(s[..|s| - 1]) * 10 + ((s[|s| - 1] as int) - ('0' as int))
  }

  /** The decimal text of a number reads back as that number, so the text shows the count exactly. */
  lemma {:induction false} NatToStringRoundTrip(n: nat)
    ensures ParseNat(NatToString(n)) == n
  {
    var r := NatToString(n);
    if n >= 10 {
      assert r[..|r| - 1] == NatToString(n / 10);
      NatToStringRoundTrip(n / 10);
    }
  }

  /** `part` occurs in `s` starting at position `k`. */
  predicate ContainsAt(s: string, part: string, k: nat)
  {
    k + |part| <= |s| && s[k..k + |part|] == part
  }

  /** The middle part of a three-part concatenation occurs right after the first part. */
  lemma ContainsAtMiddle(a: string, b: string, c: string)
    ensures ContainsAt(a + b + c, b, |a|)
    ensures (a + b + c)[..|a|] == a
    ensures (a + b + c)[|a + b + c| - |c|..] == c
  {
    assert (a + b + c)[|a|..|a| + |b|] == b;
  }

  /** Where the second and fourth parts of a five-part concatenation sit. */
  lemma ContainsAtFive(a: string, b: string, c: string, d: string, e: string)
    ensures ContainsAt(a + b + c + d + e, a, 0)
    ensures ContainsAt(a + b + c + d + e, b, |a|)
    ensures ContainsAt(a + b + c + d + e, d, |a| + |b| + |c|)
  {
    var s := a + b + c + d + e;
    assert s[..|a|] == a;
    assert s[|a|..|a| + |b|] == b;
    assert s[|a| + |b| + |c|..|a| + |b| + |c| + |d|] == d;
  }

  /** Replacing in a one-character string. */
  lemma ReplaceAllSingle(x: char, c: char, rep: string)
    ensures ReplaceAll([x], c, rep) == if x == c then rep else [x]
  {
    assert [x][1..] == [];
  }
}
