/**
 Selecting the SKUs of the rows a delete import removes. The base import
 records a validated flag per source row; the SKU column of every row
 whose flag is set is collected, in the order the flags were recorded.
 What the flag means is the base import's business.
 */
module DeletedSkus {
  import opened Wrappers

  /** One import row: column name to cell text. */
  type Row = map<string, string>

  /** The import source, seekable by row index. */
  type Source = map<nat, Row>

  /** The validated flag of one row, as the base import records it. */
  datatype RowMark = RowMark(rowIndex: nat, validated: bool)

  const SkuColumn: string := "sku"

  /** The row's SKU cell; `None` where PHP reads a missing column as `null`. */
  function SkuOf(row: Row): Option<string>
  {
    if SkuColumn in row then Some(row[SkuColumn]) else None
  }

  /** Seeking to a row that the source does not hold throws, so every row whose flag is set must exist. */
  predicate Seekable(marks: seq<RowMark>, source: Source)
  {
    forall i :: 0 <= i < |marks| && marks[i].validated ==> marks[i].rowIndex in source
  }

  /** The number of rows whose validated flag is set. */
  function CountValidated(marks: seq<RowMark>): nat
  {
    if |marks| == 0 then 0
    else CountValidated(marks[..|marks| - 1]) + (if marks[|marks| - 1].validated then 1 else 0)
  }

  /** Where row mark `i` lands in the SKU list: the number of set flags before it. */
  function Rank(marks: seq<RowMark>, i: nat): nat
    requires i <= |marks|
  {
    CountValidated(marks[..i])
  }

  /**
   The SKU list: one entry per row whose flag is set, in flag order, the
   SKU of the row with `i` set flags before it at position `i`; rows whose
   flag is not set contribute nothing.
   */
  function GetDeletedSkus(marks: seq<RowMark>, source: Source): (skus: seq<Option<string>>)
    requires Seekable(marks, source)
    ensures |skus| == CountValidated(marks)
    ensures forall i :: 0 <= i < |marks| && marks[i].validated ==>
              Rank(marks, i) < |skus| && skus[Rank(marks, i)] == SkuOf(source[marks[i].rowIndex])
  {
    if |marks| == 0 then []
    else
      var pre := marks[..|marks| - 1];
      var m := marks[|marks| - 1];
      assert forall i :: 0 <= i < |pre| ==> pre[i] == marks[i];
      assert forall i :: 0 <= i < |pre| ==> pre[..i] == marks[..i];
      assert marks[..|marks| - 1] == pre;
      GetDeletedSkus(pre, source) + (if m.validated then [SkuOf(source[m.rowIndex])] else [])
  }

  /** The loop the import runs: skip rows whose flag is not set, seek to the others and take their SKU. */
  method CollectDeletedSkus(marks: seq<RowMark>, source: Source) returns (skus: seq<Option<string>>)
    requires Seekable(marks, source)
    ensures skus == GetDeletedSkus(marks, source)
  {
    skus := [];
    var n := 0;
    while n < |marks|
      invariant n <= |marks|
      invariant skus == GetDeletedSkus(marks[..n], source)
    {
      assert marks[..n + 1][..n] == marks[..n];
      if marks[n].validated {
        var row := source[marks[n].rowIndex];
        skus := skus + [SkuOf(row)];
      }
      n := n + 1;
    }
    assert marks[..n] == marks;
  }

  /** A SKU is in the list exactly when some row whose flag is set carries it. */
  lemma DeletedSkusMembership(marks: seq<RowMark>, source: Source, sku: Option<string>)
    requires Seekable(marks, source)
    ensures sku in GetDeletedSkus(marks, source)
        <==> exists i :: 0 <= i < |marks| && marks[i].validated && SkuOf(source[marks[i].rowIndex]) == sku
  {
    var skus := GetDeletedSkus(marks, source);
    if sku in skus {
      var p :| 0 <= p < |skus| && skus[p] == sku;
      var i := RankInverse(marks, p);
      assert marks[i].validated && SkuOf(source[marks[i].rowIndex]) == sku;
    }
  }

  /** Every position of the list is the rank of some row whose flag is set. */
  lemma {:induction false} RankInverse(marks: seq<RowMark>, p: nat) returns (i: nat)
    requires p < CountValidated(marks)
    ensures i < |marks| && marks[i].validated && Rank(marks, i) == p
    decreases |marks|
  {
    var pre := marks[..|marks| - 1];
    if p < CountValidated(pre) {
      i := RankInverse(pre, p);
      assert pre[..i] == marks[..i];
    } else {
      i := |marks| - 1;
    }
  }
}
