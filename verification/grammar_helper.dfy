/**
  The Snowflake quoting policy shared by the query and schema grammars.
  String literals are quoted with single quotes, identifiers either folded
  to upper case without quotes or delimited with double quotes, depending
  on whether column names are configured as case-sensitive. The wildcard
  `*` is never quoted.
 */
module GrammarHelper {
  import opened Text
  import opened Delimited

  const Wildcard: string := "*"
  const LiteralQuote: char := '\''
  const IdentifierQuote: char := '"'

  /**
    A column as the grammar receives it: a raw SQL expression, a plain name,
    or a column definition from the schema builder, which carries its name.
   */
  datatype Column = Raw(sql: string) | Plain(name: string) | Definition(name: string)

  /** A table as the grammar receives it: a raw SQL expression or a name. */
  datatype Table = RawTable(sql: string) | NamedTable(name: string)

  /**
    What table wrapping depends on besides the name: the connection's table
    prefix, the processor's table-name rewriting, and the generic grammar
    wrapper invoked with its alias-prefixing flag set. The last two are
    collaborators and are left uninterpreted.
   */
  datatype TableEnv = TableEnv(prefix: string, normalise: string -> string, wrap: string -> string)

  /** Quotes a string literal: `'` is doubled and the whole is put in single quotes; `*` is kept. */
  function WrapValue(value: string): (r: string)
    ensures value == Wildcard ==> r == Wildcard
    ensures value != Wildcard ==>
      && |r| == |value| + 2 + Count(value, LiteralQuote)
      && r[0] == LiteralQuote && r[|r| - 1] == LiteralQuote
      && Paired(r[1..|r| - 1], LiteralQuote)
  {
    if value != Wildcard then
      QuoteShape(value, LiteralQuote);
      Quote(value, LiteralQuote)
    else value
  }

  /** The text a non-raw column stands for. */
  function ColumnName(column: Column): string
    requires !column.Raw?
  {
    column.name
  }

  /**
    Quotes a column identifier. A raw expression is returned as is; a column
    definition is replaced by its name; `*` is kept. Otherwise, when columns
    are not case-sensitive, the name is upper-cased and every `"` removed;
    when they are, every `"` is doubled and the name is put in double quotes.
   */
  function WrapColumn(column: Column, caseSensitive: bool): (r: string)
    ensures column.Raw? ==> r == column.sql
    ensures !column.Raw? && column.name == Wildcard ==> r == Wildcard
    ensures !column.Raw? && column.name != Wildcard && !caseSensitive ==>
      IdentifierQuote !in r && |r| + Count(column.name, IdentifierQuote) == |column.name|
    ensures !column.Raw? && column.name != Wildcard && caseSensitive ==>
      && |r| == |column.name| + 2 + Count(column.name, IdentifierQuote)
      && r[0] == IdentifierQuote && r[|r| - 1] == IdentifierQuote
      && Paired(r[1..|r| - 1], IdentifierQuote)
  {
    match column
    case Raw(sql) => sql
    case _ =>
      var name := ColumnName(column);
      if name != Wildcard then
        if !caseSensitive then
          CountUpper(name, IdentifierQuote);
          Strip(Upper(name), IdentifierQuote)
        else
          QuoteShape(name, IdentifierQuote);
          Quote(name, IdentifierQuote)
      else name
  }

  /**
    Quotes a table name: a raw expression is returned as is; otherwise the
    processor rewrites the name, the table prefix is put in front and the
    generic wrapper does the rest.
   */
  function WrapTable(table: Table, env: TableEnv): (r: string)
    ensures table.RawTable? ==> r == table.sql
    ensures table.NamedTable? ==> r == env.wrap(env.prefix + env.normalise(table.name))
  {
    match table
    case RawTable(sql) => sql
    case NamedTable(name) => env.wrap(env.prefix + env.normalise(name))
  }

  /** Each column quoted, in order. */
  function MapColumns(columns: seq<Column>, caseSensitive: bool): (r: seq<string>)
    ensures |r| == |columns|
    ensures forall i :: 0 <= i < |columns| ==> r[i] == WrapColumn(columns[i], caseSensitive)
  {
    seq(|columns|, i requires 0 <= i < |columns| => WrapColumn(columns[i], caseSensitive))
  }

  /** Plain column names, in order. */
  function AsPlain(names: seq<string>): (r: seq<Column>)
    ensures |r| == |names|
    ensures forall i :: 0 <= i < |names| ==> r[i] == Plain(names[i])
  {
    seq(|names|, i requires 0 <= i < |names| => Plain(names[i]))
  }

  /** A list of columns quoted one by one and separated by ", ". */
  function Columnize(columns: seq<Column>, caseSensitive: bool): (r: string)
    ensures |columns| == 0 ==> r == ""
    ensures |columns| == 1 ==> r == WrapColumn(columns[0], caseSensitive)
  {
    Join(MapColumns(columns, caseSensitive), ", ")
  }

  /** Column-name segments quoted one by one and separated by ".". */
  function WrapColumnSegments(names: seq<string>, caseSensitive: bool): string
  {
    Join(MapColumns(AsPlain(names), caseSensitive), ".")
  }

  /** The quoted form of segment `i` of a dotted name. */
  function WrapSegment(segments: seq<string>, i: nat, caseSensitive: bool, env: TableEnv): string
    requires i < |segments|
  {
    if i == 0 && |segments| > 1 then WrapTable(NamedTable(segments[0]), env)
    else WrapColumn(Plain(segments[i]), caseSensitive)
  }

  /**
    Quotes the segments of a dotted name and joins them with ".". With two or
    more segments the first is quoted as a table and the rest as columns; a
    single segment is quoted as a column.
   */
  function WrapSegments(segments: seq<string>, caseSensitive: bool, env: TableEnv): (r: string)
    ensures |segments| == 0 ==> r == ""
    ensures |segments| == 1 ==> r == WrapColumn(Plain(segments[0]), caseSensitive)
    ensures |segments| >= 2 ==>
      r == WrapTable(NamedTable(segments[0]), env) + "." + WrapColumnSegments(segments[1..], caseSensitive)
  {
    var parts := seq(|segments|, i requires 0 <= i < |segments| => WrapSegment(segments, i, caseSensitive, env));
    assert |segments| >= 2 ==> parts[1..] == MapColumns(AsPlain(segments[1..]), caseSensitive);
    Join(parts, ".")
  }

  // ---------------------------------------------------------------------------
  // Literal values

  /** Dropping the outer quotes of a quoted literal and collapsing `''` gives the literal back. */
  lemma WrapValueRoundTrip(value: string)
    requires value != Wildcard
    ensures Unquote(WrapValue(value), LiteralQuote) == Some(value)
  {
    UnquoteExact(WrapValue(value), value, LiteralQuote);
  }

  /** For a non-wildcard literal, `t` decodes to it exactly when `t` is its quoted form. */
  lemma WrapValueExact(value: string, t: string)
    requires value != Wildcard
    ensures Unquote(t, LiteralQuote) == Some(value) <==> WrapValue(value) == t
  {
    UnquoteExact(t, value, LiteralQuote);
  }

  /** Distinct literals are quoted differently, the wildcard included. */
  lemma WrapValueInjective(a: string, b: string)
    ensures WrapValue(a) == WrapValue(b) ==> a == b
  {
    if a != Wildcard && b != Wildcard {
      QuoteInjective(a, b, LiteralQuote);
    } else if a != Wildcard || b != Wildcard {
      assert WrapValue(a)[0] != WrapValue(b)[0];
    }
  }

  // Column identifiers

  /** A column definition is quoted exactly as its name would be. */
  lemma DefinitionWrapsName(name: string, caseSensitive: bool)
    ensures WrapColumn(Definition(name), caseSensitive) == WrapColumn(Plain(name), caseSensitive)
  {
  }

  /** Delimited identifiers: the name with `"` doubled, between double quotes. */
  lemma QuotedColumnForm(name: string)
    requires name != Wildcard
    ensures WrapColumn(Plain(name), true) == Quote(name, IdentifierQuote)
  {
  }

  /** Dropping the outer quotes of a delimited identifier and collapsing `""` gives the name back. */
  lemma QuotedColumnRoundTrip(column: Column)
    requires !column.Raw? && column.name != Wildcard
    ensures Unquote(WrapColumn(column, true), IdentifierQuote) == Some(column.name)
  {
    UnquoteExact(Quote(column.name, IdentifierQuote), column.name, IdentifierQuote);
  }

  /** For a name other than `*`, `t` un-delimits to it exactly when `t` is its delimited identifier. */
  lemma QuotedColumnExact(name: string, t: string)
    requires name != Wildcard
    ensures Unquote(t, IdentifierQuote) == Some(name) <==> WrapColumn(Plain(name), true) == t
  {
    QuotedColumnForm(name);
    UnquoteExact(t, name, IdentifierQuote);
  }

  /** Distinct names give distinct delimited identifiers. */
  lemma QuotedColumnInjective(a: string, b: string)
    ensures WrapColumn(Plain(a), true) == WrapColumn(Plain(b), true) ==> a == b
  {
    if a != Wildcard && b != Wildcard {
      QuotedColumnForm(a);
      QuotedColumnForm(b);
      QuoteInjective(a, b, IdentifierQuote);
    } else if a != Wildcard || b != Wildcard {
      var n := if a != Wildcard then a else b;
      QuotedColumnForm(n);
      assert WrapColumn(Plain(n), true)[0] == IdentifierQuote;
    }
  }

  /** Folded identifiers: the name with every `"` removed, upper-cased (in either order). */
  lemma FoldedColumnForm(name: string)
    requires name != Wildcard
    ensures WrapColumn(Plain(name), false) == Upper(Strip(name, IdentifierQuote))
  {
    StripUpperCommute(name, IdentifierQuote);
  }

  /** Folded identifiers contain no lower-case ASCII letter. */
  lemma FoldedColumnIsUpper(name: string)
    requires name != Wildcard
    ensures forall i :: 0 <= i < |WrapColumn(Plain(name), false)| ==>
      !('a' <= WrapColumn(Plain(name), false)[i] <= 'z')
  {
    FoldedColumnForm(name);
    UpperHasNoLower(Strip(name, IdentifierQuote));
  }

  /** Folding again changes nothing: the folded form is its own folded form. */
  lemma FoldingIdempotent(name: string)
    ensures WrapColumn(Plain(WrapColumn(Plain(name), false)), false) == WrapColumn(Plain(name), false)
  {
    if name != Wildcard {
      var once := WrapColumn(Plain(name), false);
      if once != Wildcard {
        FoldedColumnForm(name);
        FoldedColumnForm(once);
        StripFree(once, IdentifierQuote);
        UpperIdempotent(Strip(name, IdentifierQuote));
      }
    }
  }

  /** Delimiting is not idempotent: quoting a delimited identifier again makes it longer. */
  lemma QuotingNotIdempotent(name: string)
    requires name != Wildcard
    ensures WrapColumn(Plain(WrapColumn(Plain(name), true)), true) != WrapColumn(Plain(name), true)
  {
    var once := WrapColumn(Plain(name), true);
    QuotedColumnForm(name);
    assert once != Wildcard by {
      assert |once| >= 2;
    }
    QuotedColumnForm(once);
  }

  // ---------------------------------------------------------------------------
  // Lists of columns and dotted names

  predicate NoWildcard(names: seq<string>)
  {
    forall i :: 0 <= i < |names| ==> names[i] != Wildcard
  }

  /** Joining keeps order: the columns of `a` come first, then one ", ", then those of `b`. */
  lemma ColumnizeAppend(a: seq<Column>, b: seq<Column>, caseSensitive: bool)
    requires |a| > 0 && |b| > 0
    ensures Columnize(a + b, caseSensitive) == Columnize(a, caseSensitive) + ", " + Columnize(b, caseSensitive)
  {
    assert MapColumns(a + b, caseSensitive) == MapColumns(a, caseSensitive) + MapColumns(b, caseSensitive);
    JoinAppend(MapColumns(a, caseSensitive), MapColumns(b, caseSensitive), ", ");
  }

  /** The first column is quoted, then ", ", then the rest of the list. */
  lemma ColumnizeCons(columns: seq<Column>, caseSensitive: bool)
    requires |columns| >= 2
    ensures Columnize(columns, caseSensitive) ==
      WrapColumn(columns[0], caseSensitive) + ", " + Columnize(columns[1..], caseSensitive)
  {
    assert columns == [columns[0]] + columns[1..];
    ColumnizeAppend([columns[0]], columns[1..], caseSensitive);
  }

  /** With delimited identifiers the quoted names are the names quoted with `"`. */
  lemma MapColumnsQuoted(names: seq<string>)
    requires NoWildcard(names)
    ensures MapColumns(AsPlain(names), true) == QuoteAll(names, IdentifierQuote)
  {
    forall i | 0 <= i < |names|
      ensures MapColumns(AsPlain(names), true)[i] == QuoteAll(names, IdentifierQuote)[i]
    {
      QuotedColumnForm(names[i]);
    }
  }

  /** With delimited identifiers a column list can be split back into its names, in order. */
  lemma QuotedColumnizeRoundTrip(names: seq<string>)
    requires NoWildcard(names)
    ensures ParseQuotedList(Columnize(AsPlain(names), true), IdentifierQuote, ", ") == Some(names)
  {
    MapColumnsQuoted(names);
    ParseQuotedJoin(names, IdentifierQuote, ", ");
  }

  /** With delimited identifiers the column segments of a dotted name can be split back, in order. */
  lemma QuotedSegmentsRoundTrip(segments: seq<string>, env: TableEnv)
    requires |segments| >= 2 && NoWildcard(segments[1..])
    ensures var r := WrapSegments(segments, true, env);
      var table := WrapTable(NamedTable(segments[0]), env);
      && |table| + 1 <= |r|
      && r[..|table|] == table
      && r[|table|] == '.'
      && ParseQuotedList(r[|table| + 1..], IdentifierQuote, ".") == Some(segments[1..])
  {
    var columns := WrapColumnSegments(segments[1..], true);
    var table := WrapTable(NamedTable(segments[0]), env);
    assert WrapSegments(segments, true, env) == table + "." + columns;
    assert (table + "." + columns)[|table| + 1..] == columns;
    MapColumnsQuoted(segments[1..]);
    ParseQuotedJoin(segments[1..], IdentifierQuote, ".");
  }

  /** A two-part name is the table, a dot and the column. */
  lemma WrapSegmentsPair(table: string, column: string, caseSensitive: bool, env: TableEnv)
    ensures WrapSegments([table, column], caseSensitive, env) ==
      WrapTable(NamedTable(table), env) + "." + WrapColumn(Plain(column), caseSensitive)
  {
    assert [table, column][1..] == [column];
    assert AsPlain([column]) == [Plain(column)];
  }
}
