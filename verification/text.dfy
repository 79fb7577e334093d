/**
  Character-level string operations the quoting policy is built from:
  counting a character, removing it, doubling it, ASCII upper-casing and
  joining a list of strings with a separator. Strings are `seq<char>`.
 */
module Text {

  /** Number of occurrences of `c` in `s`. */
  function Count(s: string, c: char): (n: nat)
    ensures n <= |s|
  {
    if |s| == 0 then 0
    else
      (if s[0] == c then 1 else 0) + Count(s[1..], c)
  }

  /** A string made only of `c` counts `c` at every position. */
  lemma {:induction false} CountAll(s: string, c: char)
    requires forall i :: 0 <= i < |s| ==> s[i] == c
    ensures Count(s, c) == |s|
    decreases |s|
  {
    if |s| > 0 {
      CountAll(s[1..], c);
    }
  }

  lemma {:induction false} CountAppend(a: string, b: string, c: char)
    ensures Count(a + b, c) == Count(a, c) + Count(b, c)
    decreases |a|
  {
    if |a| == 0 {
      assert a + b == b;
    } else {
      assert (a + b)[0] == a[0];
      assert (a + b)[1..] == a[1..] + b;
      CountAppend(a[1..], b, c);
    }
  }

  /** `s` with every occurrence of `c` removed (replacing `c` by the empty string). */
  function Strip(s: string, c: char): (r: string)
    ensures c !in r
    ensures |r| + Count(s, c) == |s|
    decreases |s|
  {
    if |s| == 0 then []
    else
      assert s == [s[0]] + s[1..];
      if s[0] == c then Strip(s[1..], c) else [s[0]] + Strip(s[1..], c)
  }

  /** Removing `c` keeps every other character and nothing else. */
  lemma {:induction false} StripMembers(s: string, c: char)
    ensures forall x :: x in Strip(s, c) <==> x in s && x != c
    decreases |s|
  {
    if |s| > 0 {
      StripMembers(s[1..], c);
      assert s == [s[0]] + s[1..];
    }
  }

  lemma {:induction false} StripAppend(a: string, b: string, c: char)
    ensures Strip(a + b, c) == Strip(a, c) + Strip(b, c)
    decreases |a|
  {
    if |a| == 0 {
      assert a + b == b;
    } else {
      assert (a + b)[0] == a[0];
      assert (a + b)[1..] == a[1..] + b;
      StripAppend(a[1..], b, c);
    }
  }

  lemma AppendAssoc(a: string, b: string, c: string)
    ensures (a + b) + c == a + (b + c)
  {
  }

  /** `s` with every occurrence of `q` replaced by two of them. */
  function Double(s: string, q: char): (r: string)
    decreases |s|
  {
    if |s| == 0 then []
    else (if s[0] == q then [q, q] else [s[0]]) + Double(s[1..], q)
  }

  /** Doubling adds one character per occurrence of `q`. */
  lemma {:induction false} DoubleLength(s: string, q: char)
    ensures |Double(s, q)| == |s| + Count(s, q)
    decreases |s|
  {
    if |s| > 0 {
      DoubleLength(s[1..], q);
    }
  }

  /** Double unfolded on a first character. */
  lemma DoubleCons(c: char, s: string, q: char)
    ensures Double([c] + s, q) == (if c == q then [q, q] else [c]) + Double(s, q)
  {
    assert ([c] + s)[0] == c;
    assert ([c] + s)[1..] == s;
  }

  lemma {:induction false} DoubleAppend(a: string, b: string, q: char)
    ensures Double(a + b, q) == Double(a, q) + Double(b, q)
    decreases |a|
  {
    if |a| == 0 {
      assert a + b == b;
    } else {
      assert a + b == [a[0]] + (a[1..] + b);
      DoubleCons(a[0], a[1..] + b, q);
      DoubleAppend(a[1..], b, q);
      assert a == [a[0]] + a[1..];
      DoubleCons(a[0], a[1..], q);
    }
  }

  /** Doubling changes nothing in a string without `q`. */
  lemma {:induction false} DoubleFree(s: string, q: char)
    requires q !in s
    ensures Double(s, q) == s
    decreases |s|
  {
    if |s| > 0 {
      assert q !in s[1..] by {
        assert forall x :: x in s[1..] ==> x in s;
      }
      DoubleFree(s[1..], q);
      assert s == [s[0]] + s[1..];
    }
  }

  /** Doubling touches only `q`: once every `q` is removed, the input and output agree. */
  lemma {:induction false} DoubleOnlyQuotes(s: string, q: char)
    ensures Strip(Double(s, q), q) == Strip(s, q)
    decreases |s|
  {
    if |s| > 0 {
      var head := if s[0] == q then [q, q] else [s[0]];
      assert s == [s[0]] + s[1..];
      DoubleCons(s[0], s[1..], q);
      StripAppend(head, Double(s[1..], q), q);
      StripAppend([s[0]], s[1..], q);
      DoubleOnlyQuotes(s[1..], q);
      if s[0] == q {
        assert head == [q] + [q];
        StripAppend([q], [q], q);
      }
    }
  }

  /** Removing a character that does not occur changes nothing. */
  lemma {:induction false} StripFree(s: string, c: char)
    requires c !in s
    ensures Strip(s, c) == s
    decreases |s|
  {
    if |s| > 0 {
      assert c !in s[1..] by {
        assert forall x :: x in s[1..] ==> x in s;
      }
      StripFree(s[1..], c);
      assert s == [s[0]] + s[1..];
    }
  }

  /** ASCII upper-casing of one character: `a`..`z` map to `A`..`Z`, all else is fixed. */
  function UpperChar(c: char): char
  {
    if 'a' <= c <= 'z' then (c as int - 'a' as int + 'A' as int) as char else c
  }

  predicate IsLetter(c: char)
  {
    'a' <= c <= 'z' || 'A' <= c <= 'Z'
  }

  /** ASCII upper-casing of a string, character by character. */
  function Upper(s: string): (r: string)
    ensures |r| == |s|
    ensures forall i :: 0 <= i < |s| ==> r[i] == UpperChar(s[i])
    decreases |s|
  {
    if |s| == 0 then [] else [UpperChar(s[0])] + Upper(s[1..])
  }

  /** Upper-casing leaves no lower-case ASCII letter behind. */
  lemma UpperHasNoLower(s: string)
    ensures forall i :: 0 <= i < |s| ==> !('a' <= Upper(s)[i] <= 'z')
  {
  }

  lemma {:induction false} UpperAppend(a: string, b: string)
    ensures Upper(a + b) == Upper(a) + Upper(b)
    decreases |a|
  {
    if |a| == 0 {
      assert a + b == b;
    } else {
      assert (a + b)[0] == a[0];
      assert (a + b)[1..] == a[1..] + b;
      UpperAppend(a[1..], b);
    }
  }

  /** Removing a non-letter and upper-casing commute. */
  lemma {:induction false} StripUpperCommute(s: string, c: char)
    requires !IsLetter(c)
    ensures Strip(Upper(s), c) == Upper(Strip(s, c))
    decreases |s|
  {
    if |s| == 0 {
    } else {
      assert s == [s[0]] + s[1..];
      UpperAppend([s[0]], s[1..]);
      StripAppend(Upper([s[0]]), Upper(s[1..]), c);
      StripUpperCommute(s[1..], c);
      assert UpperChar(s[0]) == c <==> s[0] == c;
      if s[0] != c {
        UpperAppend([s[0]], Strip(s[1..], c));
      }
    }
  }

  /** Upper-casing does not change how often a non-letter occurs. */
  lemma {:induction false} CountUpper(s: string, c: char)
    requires !IsLetter(c)
    ensures Count(Upper(s), c) == Count(s, c)
    decreases |s|
  {
    if |s| > 0 {
      assert s == [s[0]] + s[1..];
      UpperAppend([s[0]], s[1..]);
      CountAppend(Upper([s[0]]), Upper(s[1..]), c);
      CountAppend([s[0]], s[1..], c);
      assert UpperChar(s[0]) == c <==> s[0] == c;
      CountUpper(s[1..], c);
    }
  }

  lemma UpperIdempotent(s: string)
    ensures Upper(Upper(s)) == Upper(s)
  {
  }

  /** The parts joined with `sep` between consecutive parts; the empty list joins to "". */
  function Join(parts: seq<string>, sep: string): string
    decreases |parts|
  {
    if |parts| == 0 then ""
    else if |parts| == 1 then parts[0]
    else parts[0] + sep + Join(parts[1..], sep)
  }

  /** Joining is a homomorphism: joining two non-empty lists puts exactly one separator between them. */
  lemma {:induction false} JoinAppend(a: seq<string>, b: seq<string>, sep: string)
    requires |a| > 0 && |b| > 0
    ensures Join(a + b, sep) == Join(a, sep) + sep + Join(b, sep)
    decreases |a|
  {
    if |a| == 1 {
      assert (a + b)[0] == a[0];
      assert (a + b)[1..] == b;
    } else {
      assert (a + b)[0] == a[0];
      assert (a + b)[1..] == a[1..] + b;
      JoinAppend(a[1..], b, sep);
    }
  }
}
