/**
 * The attribute tables the ELF inspector fills before printing: single-value
 * rows, multi-value rows, and `mnlen`, the length of the longest row name,
 * which sets the column the values are aligned to.
 */
module Attributes {

  /** A row with one value. */
  datatype AttributesTable = AttributesTable(name: string, value: string)

  /** A row with a list of values, printed one per line. */
  datatype AttributesMultiTable = AttributesMultiTable(name: string, values: seq<string>)

  function Max(a: nat, b: nat): nat {
    if a < b then b else a
  }

  datatype AttributesTables = AttributesTables(ats: seq<AttributesTable>, amts: seq<AttributesMultiTable>, mnlen: nat) {

    /** `mnlen` is at least the length of every row name. */
    predicate Valid() {
      && (forall k :: 0 <= k < |ats| ==> |ats[k].name| <= mnlen)
      && (forall k :: 0 <= k < |amts| ==> |amts[k].name| <= mnlen)
    }

    /** No row of either kind: the tables are the cleared ones, whatever the name width. */
    predicate Empty(): (b: bool)
      ensures b <==> AttributesTables(ats, amts, mnlen) == AttributesTables([], [], mnlen)
    {
      |ats| == 0 && |amts| == 0
    }

    /** Drop every row and reset the name width. */
    function Clear(): (r: AttributesTables)
      ensures r.Empty() && r.Valid()
      ensures r.mnlen == 0
    {
      AttributesTables([], [], 0)
    }

    /** Add a single-value row; the multi-value rows are untouched. */
    function AppendValue(name: string, value: string): (r: AttributesTables)
      ensures r.ats == ats + [AttributesTable(name, value)]
      ensures r.amts == amts
      ensures r.mnlen == Max(mnlen, |name|)
      ensures Valid() ==> r.Valid()
      ensures !r.Empty()
    {
      AttributesTables(ats + [AttributesTable(name, value)], amts, Max(mnlen, |name|))
    }

    /** Add a multi-value row; the single-value rows are untouched. */
    function AppendValues(name: string, values: seq<string>): (r: AttributesTables)
      ensures r.amts == amts + [AttributesMultiTable(name, values)]
      ensures r.ats == ats
      ensures r.mnlen == Max(mnlen, |name|)
      ensures Valid() ==> r.Valid()
      ensures !r.Empty()
    {
      AttributesTables(ats, amts + [AttributesMultiTable(name, values)], Max(mnlen, |name|))
    }
  }

  /** The empty tables an inspection starts from. */
  const EMPTY_TABLES: AttributesTables := AttributesTables([], [], 0)

  /** One call of either `Append` overload. */
  datatype Row = Single(name: string, value: string) | Multi(name: string, values: seq<string>)

  /** The tables after appending rows, in order, to empty tables. */
  function Build(rows: seq<Row>): AttributesTables {
    if |rows| == 0 then EMPTY_TABLES
    else
      var t := Build(rows[..|rows| - 1]);
      match rows[|rows| - 1]
      case Single(n, v) => t.AppendValue(n, v)
      case Multi(n, vs) => t.AppendValues(n, vs)
  }

  /** Reference: the single-value rows, in order. */
  function Singles(rows: seq<Row>): seq<AttributesTable> {
    if |rows| == 0 then []
    else
      Singles(rows[..|rows| - 1])
        + (match rows[|rows| - 1] case Single(n, v) => [AttributesTable(n, v)] case Multi(_, _) => [])
  }

  /** Reference: the multi-value rows, in order. */
  function Multis(rows: seq<Row>): seq<AttributesMultiTable> {
    if |rows| == 0 then []
    else
      Multis(rows[..|rows| - 1])
        + (match rows[|rows| - 1] case Single(_, _) => [] case Multi(n, vs) => [AttributesMultiTable(n, vs)])
  }

  /** Reference: the longest name among the rows (0 for none). */
  function LongestName(rows: seq<Row>): (n: nat)
    ensures forall k :: 0 <= k < |rows| ==> |rows[k].name| <= n
    ensures |rows| > 0 ==> exists k :: 0 <= k < |rows| && |rows[k].name| == n
  {
    if |rows| == 0 then 0
    else
      var init := rows[..|rows| - 1];
      assert forall k :: 0 <= k < |init| ==> init[k] == rows[k];
      Max(LongestName(init), |rows[|rows| - 1].name|)
  }

  /**
   * Tables built by appending rows to empty tables hold the single-value rows
   * and the multi-value rows each in their original order, and `mnlen` is
   * exactly the longest name appended.
   */
  lemma {:induction false} BuildMatchesRows(rows: seq<Row>)
    ensures Build(rows).ats == Singles(rows)
    ensures Build(rows).amts == Multis(rows)
    ensures Build(rows).mnlen == LongestName(rows)
    ensures Build(rows).Valid()
    ensures Build(rows).Empty() <==> |rows| == 0
  {
    if |rows| > 0 {
      BuildMatchesRows(rows[..|rows| - 1]);
    }
  }
}
