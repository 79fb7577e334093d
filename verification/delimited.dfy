/**
  Decoders for the quote-doubling encoding: a quoted token is an opening
  quote, its content with every quote doubled, and a closing quote. These
  are the inverses against which the quoting policy is checked.
 */
module Delimited {
  import opened Text

  datatype Option<T> = None | Some(value: T)

  /** Every `q` in `t` belongs to an adjacent pair `qq`, reading left to right. */
  predicate Paired(t: string, q: char)
    decreases |t|
  {
    if |t| == 0 then true
    else if t[0] == q then |t| >= 2 && t[1] == q && Paired(t[2..], q)
    else Paired(t[1..], q)
  }

  lemma {:induction false} DoubleIsPaired(s: string, q: char)
    ensures Paired(Double(s, q), q)
    decreases |s|
  {
    if |s| > 0 {
      DoubleIsPaired(s[1..], q);
      var d := Double(s, q);
      if s[0] == q {
        assert d[2..] == Double(s[1..], q);
      } else {
        assert d[1..] == Double(s[1..], q);
      }
    }
  }

  /** Puts `c` in front of the content of a successful read. */
  function Prepend(c: char, r: Option<(string, string)>): Option<(string, string)>
  {
    match r
    case None => None
    case Some((s, rest)) => Some(([c] + s, rest))
  }

  /**
    Reads the content of a quoted token whose opening quote has already been
    consumed: `qq` stands for one `q`, a lone `q` closes the token. Returns the
    content and what follows the closing quote, or None when no closing quote
    is found.
   */
  function ReadQuoted(t: string, q: char): (r: Option<(string, string)>)
    ensures r.Some? ==> |r.value.0| + |r.value.1| < |t|
    decreases |t|
  {
    if |t| == 0 then None
    else if t[0] == q then
      if |t| >= 2 && t[1] == q then Prepend(q, ReadQuoted(t[2..], q))
      else Some(([], t[1..]))
    else Prepend(t[0], ReadQuoted(t[1..], q))
  }

  lemma ReadQuotedClose(q: char, rest: string)
    requires rest == [] || rest[0] != q
    ensures ReadQuoted([q] + rest, q) == Some(([], rest))
  {
    assert ([q] + rest)[1..] == rest;
  }

  lemma ReadQuotedEscaped(q: char, u: string)
    ensures ReadQuoted([q, q] + u, q) == Prepend(q, ReadQuoted(u, q))
  {
    assert ([q, q] + u)[2..] == u;
  }

  lemma ReadQuotedPlain(c: char, q: char, u: string)
    requires c != q
    ensures ReadQuoted([c] + u, q) == Prepend(c, ReadQuoted(u, q))
  {
    assert ([c] + u)[1..] == u;
  }

  /** What ReadQuoted accepts is an encoded token followed by text that does not start with `q`. */
  lemma {:induction false} ReadQuotedSound(t: string, q: char)
    requires ReadQuoted(t, q).Some?
    ensures var (s, rest) := ReadQuoted(t, q).value;
      t == Double(s, q) + ([q] + rest) && (rest == [] || rest[0] != q)
    decreases |t|
  {
    if t[0] == q && |t| >= 2 && t[1] == q {
      var u := t[2..];
      assert t == [q, q] + u;
      ReadQuotedEscaped(q, u);
      ReadQuotedSound(u, q);
      var (s', rest) := ReadQuoted(u, q).value;
      DoubleCons(q, s', q);
      AppendAssoc([q, q], Double(s', q), [q] + rest);
    } else if t[0] != q {
      var u := t[1..];
      assert t == [t[0]] + u;
      ReadQuotedPlain(t[0], q, u);
      ReadQuotedSound(u, q);
      var (s', rest) := ReadQuoted(u, q).value;
      DoubleCons(t[0], s', q);
      AppendAssoc([t[0]], Double(s', q), [q] + rest);
    } else {
      assert t == [q] + t[1..];
    }
  }

  /** The converse of ReadQuotedSound: every encoded token is read back exactly. */
  lemma {:induction false} ReadQuotedComplete(s: string, q: char, rest: string)
    requires rest == [] || rest[0] != q
    ensures ReadQuoted(Double(s, q) + ([q] + rest), q) == Some((s, rest))
    decreases |s|
  {
    if |s| == 0 {
      assert Double(s, q) + ([q] + rest) == [q] + rest;
      ReadQuotedClose(q, rest);
    } else {
      var inner := Double(s[1..], q) + ([q] + rest);
      ReadQuotedComplete(s[1..], q, rest);
      assert s == [s[0]] + s[1..];
      DoubleCons(s[0], s[1..], q);
      if s[0] == q {
        AppendAssoc([q, q], Double(s[1..], q), [q] + rest);
        ReadQuotedEscaped(q, inner);
      } else {
        AppendAssoc([s[0]], Double(s[1..], q), [q] + rest);
        ReadQuotedPlain(s[0], q, inner);
      }
    }
  }

  /** `q` + Double(s, q) + `q`: the quoted form of `s`. */
  function Quote(s: string, q: char): string
  {
    [q] + Double(s, q) + [q]
  }

  /** A quoted form is two quotes longer than the doubled content, and its interior is paired. */
  lemma QuoteShape(s: string, q: char)
    ensures var r := Quote(s, q);
      && |r| == |s| + 2 + Count(s, q)
      && r[0] == q && r[|r| - 1] == q
      && Paired(r[1..|r| - 1], q)
  {
    var d := Double(s, q);
    DoubleLength(s, q);
    DoubleIsPaired(s, q);
    assert ([q] + d + [q])[1..|d| + 1] == d;
  }

  /** Decodes a whole quoted token; None unless `t` is exactly one quoted token. */
  function Unquote(t: string, q: char): (r: Option<string>)
    ensures r.Some? ==> |r.value| + 2 <= |t|
  {
    if |t| >= 1 && t[0] == q then
      match ReadQuoted(t[1..], q)
      case None => None
      case Some((s, rest)) => if rest == [] then Some(s) else None
    else None
  }

  /** Unquote accepts exactly the quoted forms, and inverts Quote on them. */
  lemma UnquoteExact(t: string, s: string, q: char)
    ensures Unquote(t, q) == Some(s) <==> t == Quote(s, q)
  {
    if Unquote(t, q) == Some(s) {
      ReadQuotedSound(t[1..], q);
      assert t == [q] + t[1..];
      AppendAssoc([q], Double(s, q), [q]);
    }
    if t == Quote(s, q) {
      ReadQuotedComplete(s, q, []);
      assert t[1..] == Double(s, q) + ([q] + []);
    }
  }

  /** Quoting is injective: distinct names have distinct quoted forms. */
  lemma QuoteInjective(a: string, b: string, q: char)
    ensures Quote(a, q) == Quote(b, q) ==> a == b
  {
    UnquoteExact(Quote(a, q), a, q);
    UnquoteExact(Quote(b, q), b, q);
  }

  /** Each name quoted, in order. */
  function QuoteAll(names: seq<string>, q: char): (r: seq<string>)
    ensures |r| == |names|
    ensures forall i :: 0 <= i < |names| ==> r[i] == Quote(names[i], q)
  {
    seq(|names|, i requires 0 <= i < |names| => Quote(names[i], q))
  }

  /** Puts `s` in front of a successfully parsed list. */
  function ConsToken(s: string, r: Option<seq<string>>): Option<seq<string>>
  {
    match r
    case None => None
    case Some(xs) => Some([s] + xs)
  }

  /**
    Parses a non-empty list of quoted tokens separated by `sep`. The tokens are
    read left to right; after each token comes either the end of the text or
    the separator and a further token.
   */
  function ParseTokens(t: string, q: char, sep: string): (r: Option<seq<string>>)
    ensures r.Some? ==> 0 < |r.value| <= |t|
    decreases |t|
  {
    if |t| == 0 || t[0] != q then None
    else
      match ReadQuoted(t[1..], q)
      case None => None
      case Some((s, rest)) =>
        if |rest| == 0 then Some([s])
        else if |sep| <= |rest| && rest[..|sep|] == sep then ConsToken(s, ParseTokens(rest[|sep|..], q, sep))
        else None
  }

  /** Parses a list of quoted tokens separated by `sep`; the empty text is the empty list. */
  function ParseQuotedList(t: string, q: char, sep: string): (r: Option<seq<string>>)
    ensures |t| == 0 ==> r == Some([])
    ensures r.Some? ==> |r.value| <= |t|
  {
    if |t| == 0 then Some([]) else ParseTokens(t, q, sep)
  }

  /** ParseTokens unfolded once, for a first token `s` followed by `rest`. */
  lemma ParseTokensStep(t: string, q: char, sep: string, s: string, rest: string)
    requires |t| > 0 && t[0] == q && ReadQuoted(t[1..], q) == Some((s, rest))
    ensures ParseTokens(t, q, sep) ==
      if |rest| == 0 then Some([s])
      else if |sep| <= |rest| && rest[..|sep|] == sep then ConsToken(s, ParseTokens(rest[|sep|..], q, sep))
      else None
  {
  }

  /** Whatever ParseTokens accepts is the quoted names joined by `sep`. */
  lemma {:induction false} ParseTokensSound(t: string, q: char, sep: string)
    requires ParseTokens(t, q, sep).Some?
    ensures t == Join(QuoteAll(ParseTokens(t, q, sep).value, q), sep)
    decreases |t|
  {
    ReadQuotedSound(t[1..], q);
    var (s, rest) := ReadQuoted(t[1..], q).value;
    ParseTokensStep(t, q, sep, s, rest);
    var d := Double(s, q);
    assert t == [q] + (d + ([q] + rest));
    assert t == Quote(s, q) + rest;
    if |rest| == 0 {
      assert QuoteAll([s], q) == [Quote(s, q)];
    } else {
      var tail := rest[|sep|..];
      assert rest == rest[..|sep|] + tail;
      ParseTokensSound(tail, q, sep);
      var xs := ParseTokens(tail, q, sep).value;
      JoinQuoteAllCons([s] + xs, q, sep);
      assert ([s] + xs)[1..] == xs;
    }
  }

  /** Whatever ParseQuotedList accepts is the quoted names joined by `sep`. */
  lemma ParseQuotedListSound(t: string, q: char, sep: string)
    requires ParseQuotedList(t, q, sep).Some?
    ensures t == Join(QuoteAll(ParseQuotedList(t, q, sep).value, q), sep)
  {
    if |t| > 0 {
      ParseTokensSound(t, q, sep);
    }
  }

  /**
    A list of quoted names joined by a separator that is non-empty and does not
    start with the quote parses back to the names: the joined text is uniquely
    decodable.
   */
  lemma ParseQuotedJoin(names: seq<string>, q: char, sep: string)
    requires |sep| > 0 && sep[0] != q
    ensures ParseQuotedList(Join(QuoteAll(names, q), sep), q, sep) == Some(names)
  {
    if |names| > 0 {
      ParseTokensJoin(names, q, sep);
    }
  }

  lemma ParseTokensLast(s: string, q: char, sep: string)
    ensures ParseTokens(Quote(s, q), q, sep) == Some([s])
  {
    var t := Quote(s, q);
    assert t[1..] == Double(s, q) + ([q] + []);
    ReadQuotedComplete(s, q, []);
  }

  lemma ParseTokensNext(s: string, tail: string, q: char, sep: string)
    requires |sep| > 0 && sep[0] != q
    ensures ParseTokens(Quote(s, q) + sep + tail, q, sep) == ConsToken(s, ParseTokens(tail, q, sep))
  {
    var t := Quote(s, q) + sep + tail;
    var rest := sep + tail;
    assert t[1..] == Double(s, q) + ([q] + rest);
    ReadQuotedComplete(s, q, rest);
    assert rest[..|sep|] == sep;
    assert rest[|sep|..] == tail;
  }

  /** Joining quoted names, unfolded on the first name. */
  lemma JoinQuoteAllCons(names: seq<string>, q: char, sep: string)
    requires |names| >= 2
    ensures Join(QuoteAll(names, q), sep) == Quote(names[0], q) + sep + Join(QuoteAll(names[1..], q), sep)
  {
    assert QuoteAll(names, q)[1..] == QuoteAll(names[1..], q);
  }

  lemma {:induction false} ParseTokensJoin(names: seq<string>, q: char, sep: string)
    requires |names| > 0
    requires |sep| > 0 && sep[0] != q
    ensures ParseTokens(Join(QuoteAll(names, q), sep), q, sep) == Some(names)
    decreases |names|
  {
    if |names| == 1 {
      assert Join(QuoteAll(names, q), sep) == Quote(names[0], q);
      ParseTokensLast(names[0], q, sep);
      assert names == [names[0]];
    } else {
      JoinQuoteAllCons(names, q, sep);
      ParseTokensNext(names[0], Join(QuoteAll(names[1..], q), sep), q, sep);
      ParseTokensJoin(names[1..], q, sep);
      assert names == [names[0]] + names[1..];
    }
  }
}
