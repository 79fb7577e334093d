/**
  Concrete renderings the quoting policy is expected to produce, one per
  lemma. The input is a parameter fixed by the precondition; the character
  level steps are separate lemmas settled by evaluation.
 */
module Scenarios {
  import opened Text
  import opened Delimited
  import opened GrammarHelper

  lemma DoubleItS()
    ensures Double("it's", '\'') == "it''s"
  {
  }

  /**
    The literal `it's` is rendered as `'it''s'`.
    The input is a parameter fixed by the precondition, so the solver
    does not evaluate the whole rendering of a literal at once.
   */
  lemma LiteralWithQuote(value: string)
    requires value == "it's"
    ensures WrapValue(value) == "'it''s'"
  {
    DoubleItS();
    assert ['\''] + "it''s" + ['\''] == "'it''s'";
  }

  /** The wildcard is rendered as itself, as a literal and as a column in either mode. */
  lemma WildcardUntouched(caseSensitive: bool)
    ensures WrapValue("*") == "*"
    ensures WrapColumn(Plain("*"), caseSensitive) == "*"
    ensures WrapColumn(Definition("*"), caseSensitive) == "*"
  {
  }

  lemma StripQuotedId()
    ensures Strip("\"id\"", '"') == "id"
  {
  }

  lemma UpperId()
    ensures Upper("id") == "ID"
  {
  }

  /**
    With folding, `"id"` becomes `ID`.
    The input is a parameter fixed by the precondition, so the solver
    does not evaluate the whole rendering of a literal at once.
   */
  lemma FoldedColumn(name: string)
    requires name == "\"id\""
    ensures WrapColumn(Plain(name), false) == "ID"
  {
    FoldedColumnForm(name);
    StripQuotedId();
    UpperId();
  }

  lemma DoubleAB()
    ensures Double("a\"b", '"') == "a\"\"b"
  {
  }

  /**
    With delimited identifiers, `a"b` becomes `"a""b"`.
    The input is a parameter fixed by the precondition, so the solver
    does not evaluate the whole rendering of a literal at once.
   */
  lemma DelimitedColumn(name: string)
    requires name == "a\"b"
    ensures WrapColumn(Plain(name), true) == "\"a\"\"b\""
  {
    QuotedColumnForm(name);
    DoubleAB();
    assert ['"'] + "a\"\"b" + ['"'] == "\"a\"\"b\"";
  }

  lemma StripAB()
    ensures Strip("ab", '"') == "ab"
    ensures Strip("A\"b", '"') == "Ab"
  {
  }

  lemma UpperAB()
    ensures Upper("ab") == "AB"
    ensures Upper("Ab") == "AB"
  {
  }

  /**
    Folding forgets quotes and case: `ab` and `A"b` both become `AB`.
    The input is a parameter fixed by the precondition, so the solver
    does not evaluate the whole rendering of a literal at once.
   */
  lemma FoldingIsLossy(a: string, b: string)
    requires a == "ab" && b == "A\"b"
    ensures WrapColumn(Plain(a), false) == WrapColumn(Plain(b), false) == "AB"
  {
    FoldedColumnForm(a);
    FoldedColumnForm(b);
    StripAB();
    UpperAB();
  }

  /** A name made only of double quotes folds to the empty identifier. */
  lemma FoldingCanEmpty(name: string)
    requires |name| > 0 && forall i :: 0 <= i < |name| ==> name[i] == '"'
    ensures WrapColumn(Plain(name), false) == ""
  {
    CountAll(name, '"');
    assert name != Wildcard by {
      assert name[0] == '"';
    }
  }
}
