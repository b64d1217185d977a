/**
 * A tabular data set as the versioner sees one (a pandas DataFrame): an ordered
 * list of column names and a list of rows.  A row maps column names to cells; a
 * column that a row lacks reads as missing, which is how pandas pads the rows of
 * one frame when it is concatenated with a frame that has more columns.
 */
module Frames {

  /** A cell as the canonical serialisation writes it. */
  type Cell = string

  type Row = map<string, Cell>

  datatype Frame = Frame(columns: seq<string>, rows: seq<Row>)

  /** `pd.DataFrame()`: no columns, no rows. */
  const Empty: Frame := Frame([], [])

  /**
   * The columns of a concatenation: those of `a` in their order, then every
   * column of `b` not seen yet, in `b`'s order.
   */
  function MergeColumns(a: seq<string>, b: seq<string>): (r: seq<string>)
    ensures |a| <= |r| && r[..|a|] == a
    ensures forall c :: c in r <==> c in a || c in b
    decreases |b|
  {
    if b == [] then a
    else if b[0] in a then MergeColumns(a, b[1..])
    else
      var r := MergeColumns(a + [b[0]], b[1..]);
      assert r[..|a|] == r[..|a| + 1][..|a|];
      r
  }

  /** `pd.concat([a, b], ignore_index=True)`. */
  function Concat(a: Frame, b: Frame): Frame {
    Frame(MergeColumns(a.columns, b.columns), a.rows + b.rows)
  }

  /** `pd.concat(fs, ignore_index=True)`, with the empty frame for an empty list. */
  function ConcatAll(fs: seq<Frame>): Frame {
    if fs == [] then Empty
    else if |fs| == 1 then fs[0]
    else Concat(ConcatAll(fs[..|fs| - 1]), fs[|fs| - 1])
  }

  /** The rows of the frames, one frame after another. */
  function FlattenRows(fs: seq<Frame>): seq<Row> {
    if fs == [] then [] else fs[0].rows + FlattenRows(fs[1..])
  }

  lemma {:induction false} FlattenRowsSnoc(fs: seq<Frame>, f: Frame)
    ensures FlattenRows(fs + [f]) == FlattenRows(fs) + f.rows
  {
    if fs == [] {
      assert [f][1..] == [];
    } else {
      assert (fs + [f])[1..] == fs[1..] + [f];
      FlattenRowsSnoc(fs[1..], f);
    }
  }

  /**
   * Concatenation keeps every row of every frame, frame by frame in list order,
   * and keeps every column any frame has (and no other).
   */
  lemma {:induction false} ConcatAllContents(fs: seq<Frame>)
    ensures ConcatAll(fs).rows == FlattenRows(fs)
    ensures forall c :: c in ConcatAll(fs).columns <==> exists k :: 0 <= k < |fs| && c in fs[k].columns
  {
    if fs == [] {
    } else if |fs| == 1 {
      assert fs == [] + [fs[0]];
      FlattenRowsSnoc([], fs[0]);
    } else {
      var init, last := fs[..|fs| - 1], fs[|fs| - 1];
      assert fs == init + [last];
      ConcatAllContents(init);
      FlattenRowsSnoc(init, last);
      forall c | c in ConcatAll(fs).columns
        ensures exists k :: 0 <= k < |fs| && c in fs[k].columns
      {
        if c in ConcatAll(init).columns {
          var k :| 0 <= k < |init| && c in init[k].columns;
          assert fs[k] == init[k];
        } else {
          assert c in fs[|fs| - 1].columns;
        }
      }
      forall c, k | 0 <= k < |fs| && c in fs[k].columns
        ensures c in ConcatAll(fs).columns
      {
        if k < |init| {
          assert c in init[k].columns;
        }
      }
    }
  }
}
