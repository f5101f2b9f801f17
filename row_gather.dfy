/** Gathering one column out of row-major records into a column vector.
    A row is abstracted to its validity bytes (one bit per column) and the
    value stored at each column offset; a vector is its vector type, its
    type, a data buffer and a validity mask. Gather reads the rows chosen by
    a row selection into the positions chosen by a column selection;
    FullScanColumn is the same copy with both selections the identity. */
module RowGather {

  datatype VectorType = FlatVector | ConstantVector | DictionaryVector | SequenceVector | FsstVector

  /** The logical type id of a vector, as far as the gather looks at it. */
  datatype LogicalTypeId = PointerType | OtherLogicalType

  /** The physical types the two dispatch tables mention, and the rest;
      PTR is the pointer-sized physical type. */
  datatype PhysicalType =
    | BOOL | UINT8 | INT8 | UINT16 | INT16 | UINT32 | INT32 | UINT64 | INT64
    | INT128 | FLOAT | DOUBLE | INTERVAL | VARCHAR | PTR | HASH
    | LIST | MAP | STRUCT | BIT | UNKNOWN | INVALID

  /** The C++ type a templated loop is instantiated with. */
  datatype LoadType =
    | LoadUInt8 | LoadUInt16 | LoadUInt32 | LoadUInt64
    | LoadInt8 | LoadInt16 | LoadInt32 | LoadInt64 | LoadHugeInt
    | LoadFloat | LoadDouble | LoadInterval | LoadString | LoadUIntPtr | LoadHash

  datatype Exception = InternalException(message: string) | NotImplementedException(message: string)

  /** What Gather throws for a type it has no loop for. */
  const GatherUnimplemented: Exception := InternalException("Unimplemented type for RowOperations::Gather")

  /** What FullScanColumn throws for a type it has no loop for. */
  const FullScanUnimplemented: Exception := NotImplementedException("Unimplemented type for RowOperations::FullScanColumn")

  /** Where a dispatch sends a column: the scalar loop with a load type, the
      nested (heap) gather, or an exception. */
  datatype Route = Scalar(load: LoadType) | Nested | Throws(error: Exception)

  /** A row record: its validity bytes, and the value stored at each column
      offset (Load<T>(row + offset)). */
  datatype Row<T> = Row(validity: seq<bv8>, fields: map<nat, T>)

  /** A selection vector; the identity is the one without an index buffer. */
  datatype SelectionVector = Identity | Selection(indices: seq<nat>)
  {
    predicate Covers(i: nat) {
      Identity? || i < |indices|
    }

    function GetIndex(i: nat): (k: nat)
      requires Covers(i)
      ensures Identity? ==> k == i
    {
      if Identity? then i else indices[i]
    }
  }

  /** The byte offset of every column inside a row. */
  datatype RowLayout = RowLayout(offsets: seq<nat>)

  /** Validity bytes hold eight column bits each. */
  const BitsPerEntry: nat := 8

  /** The byte and the bit within it that hold column `colNo`'s validity. */
  function GetEntryIndex(colNo: nat): (r: (nat, nat))
    ensures r.1 < BitsPerEntry
    ensures r.0 * BitsPerEntry + r.1 == colNo
  {
    (colNo / BitsPerEntry, colNo % BitsPerEntry)
  }

  /** Bit `idxInEntry` of a validity byte. */
  function RowIsValid(entry: bv8, idxInEntry: nat): bool
    requires idxInEntry < BitsPerEntry
  {
    entry & (1 << idxInEntry) != 0
  }

  /** The row's validity bytes reach column `colNo`. */
  predicate HasValidityBit<T>(row: Row<T>, colNo: nat) {
    colNo / BitsPerEntry < |row.validity|
  }

  /** The row's validity bit for column `colNo`, read at the precomputed
      entry and bit position. */
  function ColumnIsValid<T>(row: Row<T>, colNo: nat): bool
    requires HasValidityBit(row, colNo)
  {
    var (entryIdx, idxInEntry) := GetEntryIndex(colNo);
    RowIsValid(row.validity[entryIdx], idxInEntry)
  }

  /** A vector: the type fields are fixed, the vector type changes with
      SetVectorType, and the data and validity buffers are updated in place. */
  class Vector<T> {
    var vectorType: VectorType
    const logicalType: LogicalTypeId
    const physicalType: PhysicalType
    const data: array<T>
    const validity: array<bool>

    constructor (vectorType: VectorType, logicalType: LogicalTypeId, physicalType: PhysicalType,
                 data: array<T>, validity: array<bool>)
      ensures this.vectorType == vectorType && this.logicalType == logicalType
      ensures this.physicalType == physicalType && this.data == data && this.validity == validity
    {
      this.vectorType := vectorType;
      this.logicalType := logicalType;
      this.physicalType := physicalType;
      this.data := data;
      this.validity := validity;
    }

    /** The data and validity buffers are two distinct buffers of one
        length. */
    predicate Valid() {
      data.Length == validity.Length && data as object != validity
    }

    method SetVectorType(t: VectorType)
      modifies this
      ensures vectorType == t
    {
      vectorType := t;
    }
  }

  /** The row records live apart from the column's buffers. */
  predicate Separate<T>(rows: Vector<Row<T>>, col: Vector<T>) {
    rows.data as object != col.data && rows.data as object != col.validity
  }

  /** What the scalar loop needs of its inputs, for each i < count: both
      selections cover i, the selected row exists and stores the column at
      `colOffset` and a validity bit for `colNo`, and the selected column
      position lies inside the column buffers. */
  ghost predicate Gatherable<T>(rows: seq<Row<T>>, rowSel: SelectionVector, colSel: SelectionVector,
                                count: nat, width: nat, colOffset: nat, colNo: nat)
  {
    forall i | 0 <= i < count ::
      && rowSel.Covers(i) && colSel.Covers(i)
      && rowSel.GetIndex(i) < |rows| && colSel.GetIndex(i) < width
      && colOffset in rows[rowSel.GetIndex(i)].fields
      && HasValidityBit(rows[rowSel.GetIndex(i)], colNo)
  }

  /** What the full-scan loop needs: there are `count` rows and column
      positions, and each of those rows stores the column at `colOffset` and
      a validity bit for `colNo`. */
  ghost predicate Scannable<T>(rows: seq<Row<T>>, count: nat, width: nat, colOffset: nat, colNo: nat) {
    && count <= |rows| && count <= width
    && forall i | 0 <= i < count :: colOffset in rows[i].fields && HasValidityBit(rows[i], colNo)
  }

  /** The column data after the first n iterations of the gather loop. */
  function GatherData<T>(data: seq<T>, rows: seq<Row<T>>, rowSel: SelectionVector, colSel: SelectionVector,
                         n: nat, colOffset: nat, colNo: nat): (r: seq<T>)
    requires Gatherable(rows, rowSel, colSel, n, |data|, colOffset, colNo)
    ensures |r| == |data|
    decreases n
  {
    if n == 0 then data
    else
      var prev := GatherData(data, rows, rowSel, colSel, n - 1, colOffset, colNo);
      prev[colSel.GetIndex(n - 1) := rows[rowSel.GetIndex(n - 1)].fields[colOffset]]
  }

  /** The column validity mask after the first n iterations of the gather
      loop. */
  function GatherMask<T>(mask: seq<bool>, rows: seq<Row<T>>, rowSel: SelectionVector, colSel: SelectionVector,
                         n: nat, colOffset: nat, colNo: nat): (r: seq<bool>)
    requires Gatherable(rows, rowSel, colSel, n, |mask|, colOffset, colNo)
    ensures |r| == |mask|
    decreases n
  {
    if n == 0 then mask
    else
      var prev := GatherMask(mask, rows, rowSel, colSel, n - 1, colOffset, colNo);
      if !ColumnIsValid(rows[rowSel.GetIndex(n - 1)], colNo) then prev[colSel.GetIndex(n - 1) := false]
      else prev
  }

  /** A column position that no selected index names keeps its value. */
  lemma {:induction false} GatherDataUntouched<T>(data: seq<T>, rows: seq<Row<T>>, rowSel: SelectionVector,
                                                   colSel: SelectionVector, n: nat, colOffset: nat, colNo: nat, p: nat)
    requires Gatherable(rows, rowSel, colSel, n, |data|, colOffset, colNo)
    requires p < |data|
    requires forall i | 0 <= i < n :: colSel.GetIndex(i) != p
    ensures GatherData(data, rows, rowSel, colSel, n, colOffset, colNo)[p] == data[p]
    decreases n
  {
    if n > 0 {
      GatherDataUntouched(data, rows, rowSel, colSel, n - 1, colOffset, colNo, p);
    }
  }

  /** The last iteration that names a column position decides its value: it
      holds the field of the row that iteration selected. */
  lemma {:induction false} GatherDataLastWrite<T>(data: seq<T>, rows: seq<Row<T>>, rowSel: SelectionVector,
                                                   colSel: SelectionVector, n: nat, colOffset: nat, colNo: nat, i: nat)
    requires Gatherable(rows, rowSel, colSel, n, |data|, colOffset, colNo)
    requires i < n
    requires forall j | i < j < n :: colSel.GetIndex(j) != colSel.GetIndex(i)
    ensures GatherData(data, rows, rowSel, colSel, n, colOffset, colNo)[colSel.GetIndex(i)]
            == rows[rowSel.GetIndex(i)].fields[colOffset]
    decreases n
  {
    if i < n - 1 {
      GatherDataLastWrite(data, rows, rowSel, colSel, n - 1, colOffset, colNo, i);
    }
  }

  /** With a column selection that names no position twice, every selected
      position holds the field of its selected row. */
  lemma GatherDataSelected<T>(data: seq<T>, rows: seq<Row<T>>, rowSel: SelectionVector,
                              colSel: SelectionVector, n: nat, colOffset: nat, colNo: nat)
    requires Gatherable(rows, rowSel, colSel, n, |data|, colOffset, colNo)
    requires forall i, j | 0 <= i < j < n :: colSel.GetIndex(i) != colSel.GetIndex(j)
    ensures forall i | 0 <= i < n ::
      GatherData(data, rows, rowSel, colSel, n, colOffset, colNo)[colSel.GetIndex(i)]
      == rows[rowSel.GetIndex(i)].fields[colOffset]
  {
    forall i | 0 <= i < n
      ensures GatherData(data, rows, rowSel, colSel, n, colOffset, colNo)[colSel.GetIndex(i)]
              == rows[rowSel.GetIndex(i)].fields[colOffset]
    {
      GatherDataLastWrite(data, rows, rowSel, colSel, n, colOffset, colNo, i);
    }
  }

  /** Every one of the first n iterations that names column position p read
      a row whose bit for `colNo` is set. */
  ghost predicate WritesKeepValid<T>(rows: seq<Row<T>>, rowSel: SelectionVector, colSel: SelectionVector,
                                     n: nat, width: nat, colOffset: nat, colNo: nat, p: nat)
    requires Gatherable(rows, rowSel, colSel, n, width, colOffset, colNo)
  {
    forall i | 0 <= i < n && colSel.GetIndex(i) == p :: ColumnIsValid(rows[rowSel.GetIndex(i)], colNo)
  }

  lemma WritesKeepValidStep<T>(rows: seq<Row<T>>, rowSel: SelectionVector, colSel: SelectionVector,
                               n: nat, width: nat, colOffset: nat, colNo: nat, p: nat)
    requires n > 0 && Gatherable(rows, rowSel, colSel, n, width, colOffset, colNo)
    ensures Gatherable(rows, rowSel, colSel, n - 1, width, colOffset, colNo)
    ensures WritesKeepValid(rows, rowSel, colSel, n, width, colOffset, colNo, p)
            <==> && WritesKeepValid(rows, rowSel, colSel, n - 1, width, colOffset, colNo, p)
                 && (colSel.GetIndex(n - 1) == p ==> ColumnIsValid(rows[rowSel.GetIndex(n - 1)], colNo))
  {
  }

  /** A column position ends valid iff it was valid before and every
      iteration that names it read a row whose bit for `colNo` is set. */
  lemma {:induction false} GatherMaskExact<T>(mask: seq<bool>, rows: seq<Row<T>>, rowSel: SelectionVector,
                                               colSel: SelectionVector, n: nat, colOffset: nat, colNo: nat, p: nat)
    requires Gatherable(rows, rowSel, colSel, n, |mask|, colOffset, colNo)
    requires p < |mask|
    ensures GatherMask(mask, rows, rowSel, colSel, n, colOffset, colNo)[p]
            <==> mask[p] && WritesKeepValid(rows, rowSel, colSel, n, |mask|, colOffset, colNo, p)
    decreases n
  {
    if n > 0 {
      WritesKeepValidStep(rows, rowSel, colSel, n, |mask|, colOffset, colNo, p);
      GatherMaskExact(mask, rows, rowSel, colSel, n - 1, colOffset, colNo, p);
    }
  }

  /** The gather only clears validity bits: a position valid afterwards was
      valid before. */
  lemma GatherMaskOnlyClears<T>(mask: seq<bool>, rows: seq<Row<T>>, rowSel: SelectionVector,
                                colSel: SelectionVector, n: nat, colOffset: nat, colNo: nat, p: nat)
    requires Gatherable(rows, rowSel, colSel, n, |mask|, colOffset, colNo)
    requires p < |mask| && GatherMask(mask, rows, rowSel, colSel, n, colOffset, colNo)[p]
    ensures mask[p]
  {
    GatherMaskExact(mask, rows, rowSel, colSel, n, colOffset, colNo, p);
  }

  /** The scalar gather loop: for each i < count, copy the field at
      `colOffset` of row rowSel[i] into column position colSel[i], and clear
      that position's validity when the row's bit for `colNo` is unset. The
      entry and bit position are computed once, before the loop. */
  method TemplatedGatherLoop<T>(rows: Vector<Row<T>>, rowSel: SelectionVector, col: Vector<T>, colSel: SelectionVector,
                                count: nat, colOffset: nat, colNo: nat)
    requires col.Valid() && Separate(rows, col)
    requires Gatherable(rows.data[..], rowSel, colSel, count, col.data.Length, colOffset, colNo)
    modifies col.data, col.validity
    ensures col.data[..] == GatherData(old(col.data[..]), rows.data[..], rowSel, colSel, count, colOffset, colNo)
    ensures col.validity[..] == GatherMask(old(col.validity[..]), rows.data[..], rowSel, colSel, count, colOffset, colNo)
  {
    var (entryIdx, idxInEntry) := GetEntryIndex(colNo);
    var ptrs := rows.data;
    var data := col.data;
    var colMask := col.validity;
    ghost var data0, mask0 := data[..], colMask[..];
    for i := 0 to count
      invariant ptrs[..] == rows.data[..] == old(rows.data[..])
      invariant Gatherable(ptrs[..], rowSel, colSel, i, data.Length, colOffset, colNo)
      invariant data[..] == GatherData(data0, ptrs[..], rowSel, colSel, i, colOffset, colNo)
      invariant colMask[..] == GatherMask(mask0, ptrs[..], rowSel, colSel, i, colOffset, colNo)
    {
      assert colSel.GetIndex(i) < data.Length;
      var rowIdx := rowSel.GetIndex(i);
      var row := ptrs[rowIdx];
      var colIdx := colSel.GetIndex(i);
      data[colIdx] := row.fields[colOffset];
      if !RowIsValid(row.validity[entryIdx], idxInEntry) {
        colMask[colIdx] := false;
      }
    }
  }

  /** The dispatch table of Gather. */
  function GatherRoute(t: PhysicalType): (r: Route)
    ensures r.Nested? <==> t == LIST || t == MAP || t == STRUCT
    ensures r.Throws? ==> r.error == GatherUnimplemented
  {
    match t
    case UINT8 => Scalar(LoadUInt8)
    case UINT16 => Scalar(LoadUInt16)
    case UINT32 => Scalar(LoadUInt32)
    case UINT64 => Scalar(LoadUInt64)
    case BOOL => Scalar(LoadInt8)
    case INT8 => Scalar(LoadInt8)
    case INT16 => Scalar(LoadInt16)
    case INT32 => Scalar(LoadInt32)
    case INT64 => Scalar(LoadInt64)
    case INT128 => Scalar(LoadHugeInt)
    case FLOAT => Scalar(LoadFloat)
    case DOUBLE => Scalar(LoadDouble)
    case INTERVAL => Scalar(LoadInterval)
    case VARCHAR => Scalar(LoadString)
    case LIST => Nested
    case MAP => Nested
    case STRUCT => Nested
    case _ => Throws(GatherUnimplemented)
  }

  /** The dispatch table of FullScanColumn: no nested case. */
  function FullScanRoute(t: PhysicalType): (r: Route)
    ensures !r.Nested?
    ensures r.Throws? ==> r.error == FullScanUnimplemented
  {
    match t
    case UINT8 => Scalar(LoadUInt8)
    case UINT16 => Scalar(LoadUInt16)
    case UINT32 => Scalar(LoadUInt32)
    case UINT64 => Scalar(LoadUInt64)
    case BOOL => Scalar(LoadInt8)
    case INT8 => Scalar(LoadInt8)
    case INT16 => Scalar(LoadInt16)
    case INT32 => Scalar(LoadInt32)
    case INT64 => Scalar(LoadInt64)
    case INT128 => Scalar(LoadHugeInt)
    case FLOAT => Scalar(LoadFloat)
    case DOUBLE => Scalar(LoadDouble)
    case PTR => Scalar(LoadUIntPtr)
    case INTERVAL => Scalar(LoadInterval)
    case HASH => Scalar(LoadHash)
    case VARCHAR => Scalar(LoadString)
    case _ => Throws(FullScanUnimplemented)
  }

  /** The two tables agree wherever Gather has a scalar loop; FullScanColumn
      adds PTR and HASH, and sends the nested types to its exception. */
  lemma RoutesAgree(t: PhysicalType)
    ensures GatherRoute(t).Scalar? ==> FullScanRoute(t) == GatherRoute(t)
    ensures FullScanRoute(t).Scalar? && !GatherRoute(t).Scalar? <==> t == PTR || t == HASH
    ensures GatherRoute(t).Nested? ==> FullScanRoute(t).Throws?
  {
  }

  /** Gather one column: the rows must be a flat vector of pointers; the
      column is made flat, then dispatched on its physical type. The scalar
      route runs the gather loop; the nested route is handed to the heap
      gather; any other type throws, leaving the column buffers as they were. */
  method Gather<T>(rows: Vector<Row<T>>, rowSel: SelectionVector, col: Vector<T>, colSel: SelectionVector,
                   count: nat, colOffset: nat, colNo: nat) returns (route: Route)
    requires rows.vectorType == FlatVector && rows.logicalType == PointerType
    requires col.Valid() && Separate(rows, col)
    requires GatherRoute(col.physicalType).Scalar? ==>
               Gatherable(rows.data[..], rowSel, colSel, count, col.data.Length, colOffset, colNo)
    modifies col, col.data, col.validity
    ensures col.vectorType == FlatVector
    ensures route == GatherRoute(col.physicalType)
    ensures route.Scalar? ==>
              && col.data[..] == GatherData(old(col.data[..]), rows.data[..], rowSel, colSel, count, colOffset, colNo)
              && col.validity[..] == GatherMask(old(col.validity[..]), rows.data[..], rowSel, colSel, count, colOffset, colNo)
    ensures route.Throws? ==> col.data[..] == old(col.data[..]) && col.validity[..] == old(col.validity[..])
  {
    col.SetVectorType(FlatVector);
    route := GatherRoute(col.physicalType);
    if route.Scalar? {
      TemplatedGatherLoop(rows, rowSel, col, colSel, count, colOffset, colNo);
    }
  }

  /** Identity selections cover every index, so a scannable input is a
      gatherable one. */
  lemma ScannableIsGatherable<T>(rows: seq<Row<T>>, count: nat, width: nat, colOffset: nat, colNo: nat)
    requires Scannable(rows, count, width, colOffset, colNo)
    ensures Gatherable(rows, Identity, Identity, count, width, colOffset, colNo)
  {
    forall i | 0 <= i < count
      ensures && Identity.GetIndex(i) < |rows| && Identity.GetIndex(i) < width
              && colOffset in rows[Identity.GetIndex(i)].fields
              && HasValidityBit(rows[Identity.GetIndex(i)], colNo)
    {
      ScannableAt(rows, count, width, colOffset, colNo, i);
    }
  }

  lemma ScannableAt<T>(rows: seq<Row<T>>, count: nat, width: nat, colOffset: nat, colNo: nat, i: nat)
    requires Scannable(rows, count, width, colOffset, colNo) && i < count
    ensures i < |rows| && i < width && colOffset in rows[i].fields && HasValidityBit(rows[i], colNo)
  {
  }

  /** The column data after a full scan of `count` rows: the gather with
      both selections the identity. */
  function FullScanData<T>(data: seq<T>, rows: seq<Row<T>>, count: nat, colOffset: nat, colNo: nat): (r: seq<T>)
    requires Scannable(rows, count, |data|, colOffset, colNo)
    ensures |r| == |data|
  {
    ScannableIsGatherable(rows, count, |data|, colOffset, colNo);
    GatherData(data, rows, Identity, Identity, count, colOffset, colNo)
  }

  /** The column validity mask after a full scan of `count` rows. */
  function FullScanMask<T>(mask: seq<bool>, rows: seq<Row<T>>, count: nat, colOffset: nat, colNo: nat): (r: seq<bool>)
    requires Scannable(rows, count, |mask|, colOffset, colNo)
    ensures |r| == |mask|
  {
    ScannableIsGatherable(rows, count, |mask|, colOffset, colNo);
    GatherMask(mask, rows, Identity, Identity, count, colOffset, colNo)
  }

  /** The full-scan loop: row i goes to column position i. */
  method TemplatedFullScanLoop<T>(rows: Vector<Row<T>>, col: Vector<T>, count: nat, colOffset: nat, colNo: nat)
    requires col.Valid() && Separate(rows, col)
    requires Scannable(rows.data[..], count, col.data.Length, colOffset, colNo)
    modifies col.data, col.validity
    ensures col.data[..] == FullScanData(old(col.data[..]), rows.data[..], count, colOffset, colNo)
    ensures col.validity[..] == FullScanMask(old(col.validity[..]), rows.data[..], count, colOffset, colNo)
  {
    var (entryIdx, idxInEntry) := GetEntryIndex(colNo);
    var ptrs := rows.data;
    var data := col.data;
    var colMask := col.validity;
    ghost var data0, mask0 := data[..], colMask[..];
    for i := 0 to count
      invariant ptrs[..] == rows.data[..] == old(rows.data[..])
      invariant data[..] == FullScanData(data0, ptrs[..], i, colOffset, colNo)
      invariant colMask[..] == FullScanMask(mask0, ptrs[..], i, colOffset, colNo)
    {
      ScannableAt(ptrs[..], count, data.Length, colOffset, colNo, i);
      var row := ptrs[i];
      data[i] := row.fields[colOffset];
      if !RowIsValid(row.validity[entryIdx], idxInEntry) {
        colMask[i] := false;
      }
    }
  }

  /** A full scan fills the first `count` column positions with the fields
      of the first `count` rows, each valid iff it was valid and its row's
      bit is set, and leaves every later position unchanged. */
  lemma FullScanContents<T>(data: seq<T>, mask: seq<bool>, rows: seq<Row<T>>, count: nat, colOffset: nat, colNo: nat)
    requires |data| == |mask|
    requires Scannable(rows, count, |data|, colOffset, colNo)
    ensures forall i | 0 <= i < count ::
      FullScanData(data, rows, count, colOffset, colNo)[i] == rows[i].fields[colOffset]
      && FullScanMask(mask, rows, count, colOffset, colNo)[i] == (mask[i] && ColumnIsValid(rows[i], colNo))
    ensures forall p | count <= p < |data| ::
      FullScanData(data, rows, count, colOffset, colNo)[p] == data[p]
      && FullScanMask(mask, rows, count, colOffset, colNo)[p] == mask[p]
  {
    ScannableIsGatherable(rows, count, |data|, colOffset, colNo);
    GatherDataSelected(data, rows, Identity, Identity, count, colOffset, colNo);
    forall i | 0 <= i < count
      ensures FullScanData(data, rows, count, colOffset, colNo)[i] == rows[i].fields[colOffset]
      ensures FullScanMask(mask, rows, count, colOffset, colNo)[i] == (mask[i] && ColumnIsValid(rows[i], colNo))
    {
      assert Identity.GetIndex(i) == i;
      GatherMaskExact(mask, rows, Identity, Identity, count, colOffset, colNo, i);
    }
    forall p | count <= p < |data|
      ensures FullScanData(data, rows, count, colOffset, colNo)[p] == data[p]
      ensures FullScanMask(mask, rows, count, colOffset, colNo)[p] == mask[p]
    {
      GatherDataUntouched(data, rows, Identity, Identity, count, colOffset, colNo, p);
      GatherMaskExact(mask, rows, Identity, Identity, count, colOffset, colNo, p);
    }
  }

  /** Scan one column of `count` rows in full: the offset is the layout's
      offset of column `colNo`; the column is made flat, then dispatched on
      its physical type. */
  method FullScanColumn<T>(layout: RowLayout, rows: Vector<Row<T>>, col: Vector<T>, count: nat, colNo: nat)
    returns (route: Route)
    requires colNo < |layout.offsets|
    requires col.Valid() && Separate(rows, col)
    requires FullScanRoute(col.physicalType).Scalar? ==>
               Scannable(rows.data[..], count, col.data.Length, layout.offsets[colNo], colNo)
    modifies col, col.data, col.validity
    ensures col.vectorType == FlatVector
    ensures route == FullScanRoute(col.physicalType)
    ensures route.Scalar? ==>
              && col.data[..] == FullScanData(old(col.data[..]), rows.data[..], count, layout.offsets[colNo], colNo)
              && col.validity[..] == FullScanMask(old(col.validity[..]), rows.data[..], count, layout.offsets[colNo], colNo)
    ensures route.Throws? ==> col.data[..] == old(col.data[..]) && col.validity[..] == old(col.validity[..])
  {
    var colOffset := layout.offsets[colNo];
    col.SetVectorType(FlatVector);
    route := FullScanRoute(col.physicalType);
    if route.Scalar? {
      TemplatedFullScanLoop(rows, col, count, colOffset, colNo);
    }
  }
}
