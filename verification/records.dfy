/** Counting fixed-size records in a run of bytes. The source divides
    (`m_size / m_hitsize`); the model counts by repeated subtraction, which
    keeps the arithmetic linear, and proves once that the two agree. */
module Records {
  import opened Arith

  /** The offset of record `k` when every record is `h` bytes: k * h. */
  function RecordStart(k: nat, h: nat): nat {
    if k == 0 then 0 else RecordStart(k - 1, h) + h
  }

  lemma {:induction false} RecordStartIsProduct(k: nat, h: nat)
    ensures RecordStart(k, h) == k * h
  {
    if k > 0 {
      RecordStartIsProduct(k - 1, h);
      assert (k - 1) * h + h == k * h;
    }
  }

  lemma {:induction false} RecordStartMonotone(i: nat, j: nat, h: nat)
    requires i <= j
    ensures RecordStart(i, h) <= RecordStart(j, h)
    decreases j
  {
    if i < j {
      RecordStartMonotone(i, j - 1, h);
    }
  }

  /** How many whole records of `size` bytes fit in `bytes` bytes. */
  function WholeRecords(bytes: nat, size: nat): (n: nat)
    requires size > 0
    ensures RecordStart(n, size) <= bytes < RecordStart(n, size) + size
    decreases bytes
  {
    if bytes < size then 0 else 1 + WholeRecords(bytes - size, size)
  }

  /** The count is the quotient of the C++ integer division. */
  lemma WholeRecordsIsQuotient(bytes: nat, size: nat)
    requires size > 0
    ensures WholeRecords(bytes, size) == bytes / size
  {
    var n := WholeRecords(bytes, size);
    RecordStartIsProduct(n, size);
    DivModUnique(bytes, size, n, bytes - n * size);
  }

  /** The longest prefix of `bytes` bytes that holds whole records only. */
  function WholeRecordBytes(bytes: nat, size: nat): (r: nat)
    requires size > 0
    ensures r <= bytes < r + size
  {
    RecordStart(WholeRecords(bytes, size), size)
  }

  /** `x` bytes are whole records of `h` bytes, none left over. */
  predicate WholeRecordsOnly(x: nat, h: nat)
    requires h > 0
  {
    WholeRecordBytes(x, h) == x
  }

  /** A count pinned between `k` and `k + 1` records is `k`. */
  lemma {:induction false} CountFromBounds(k: nat, a: nat, h: nat)
    requires h > 0 && RecordStart(k, h) <= a < RecordStart(k, h) + h
    ensures WholeRecords(a, h) == k
    decreases k
  {
    if k > 0 {
      CountFromBounds(k - 1, a - h, h);
    }
  }

  /** Exactly `k` records are `k` records. */
  lemma RecordsAreWhole(k: nat, h: nat)
    requires h > 0
    ensures WholeRecords(RecordStart(k, h), h) == k
    ensures WholeRecordsOnly(RecordStart(k, h), h)
  {
    CountFromBounds(k, RecordStart(k, h), h);
  }

  /** If `m` records fit, at least `m` are counted. */
  lemma CountAtLeast(m: nat, a: nat, h: nat)
    requires h > 0 && RecordStart(m, h) <= a
    ensures m <= WholeRecords(a, h)
  {
    var n := WholeRecords(a, h);
    if n < m {
      RecordStartMonotone(n + 1, m, h);
    }
  }

  /** A record that lies wholly inside the bytes is counted. */
  lemma RecordCounted(k: nat, a: nat, h: nat)
    requires h > 0 && RecordStart(k, h) + h <= a
    ensures k < WholeRecords(a, h)
  {
    CountAtLeast(k + 1, a, h);
  }

  /** Every counted record lies wholly inside the bytes. */
  lemma CountedRecordFits(k: nat, a: nat, h: nat)
    requires h > 0 && k < WholeRecords(a, h)
    ensures RecordStart(k, h) + h <= a
  {
    RecordStartMonotone(k + 1, WholeRecords(a, h), h);
  }

  /** A non-empty run of whole records holds at least one, and losing one
      leaves whole records. */
  lemma TakeOneRecord(x: nat, h: nat)
    requires h > 0 && WholeRecordsOnly(x, h) && x > 0
    ensures x >= h && WholeRecordsOnly(x - h, h)
  {
    var n := WholeRecords(x, h);
    assert n > 0;
    RecordsAreWhole(n - 1, h);
  }

  /** Fewer bytes than one record that are whole records are none. */
  lemma ShortRunIsEmpty(x: nat, h: nat)
    requires h > 0 && WholeRecordsOnly(x, h) && x < h
    ensures x == 0
  {
  }

  /** Trimming to whole records leaves whole records. */
  lemma TrimmedIsWhole(a: nat, h: nat)
    requires h > 0
    ensures WholeRecordsOnly(WholeRecordBytes(a, h), h)
  {
    RecordsAreWhole(WholeRecords(a, h), h);
  }

  /** Record offsets add: `i + j` records are `i` records then `j`. */
  lemma {:induction false} RecordStartAdd(i: nat, j: nat, h: nat)
    ensures RecordStart(i + j, h) == RecordStart(i, h) + RecordStart(j, h)
    decreases j
  {
    if j > 0 {
      RecordStartAdd(i, j - 1, h);
    }
  }

  /** What is left when whole records are taken from whole records is whole
      records. */
  lemma WholeDifference(x: nat, y: nat, h: nat)
    requires h > 0 && y <= x && WholeRecordsOnly(x, h) && WholeRecordsOnly(y, h)
    ensures WholeRecordsOnly(x - y, h)
  {
    var n, k := WholeRecords(x, h), WholeRecords(y, h);
    if n < k {
      RecordStartMonotone(n + 1, k, h);
    }
    RecordStartAdd(k, n - k, h);
    RecordsAreWhole(n - k, h);
  }

  /** Whole runs of `b` bytes, where `b` is itself whole records of `h`
      bytes, are whole records of `h` bytes. */
  lemma {:induction false} WholeOfWhole(q: nat, b: nat, h: nat)
    requires h > 0 && WholeRecordsOnly(b, h)
    ensures WholeRecordsOnly(RecordStart(q, b), h)
    decreases q
  {
    if q > 0 {
      WholeOfWhole(q - 1, b, h);
      var n, m := WholeRecords(RecordStart(q - 1, b), h), WholeRecords(b, h);
      RecordStartAdd(n, m, h);
      RecordsAreWhole(n + m, h);
    }
  }

  /** One more whole run keeps a count of whole runs whole. */
  lemma OneMoreRun(p: nat, b: nat)
    requires b > 0 && WholeRecordsOnly(p, b)
    ensures WholeRecordsOnly(p + b, b)
  {
    RecordsAreWhole(WholeRecords(p, b) + 1, b);
  }

  /** Adding `e < h` bytes to a count adds one record exactly when they
      complete the partial record at the end. */
  lemma CountWithExtra(a: nat, e: nat, h: nat)
    requires 0 < h && e < h
    ensures WholeRecords(a + e, h) ==
      WholeRecords(a, h) + (if a - WholeRecordBytes(a, h) + e >= h then 1 else 0)
  {
    var n := WholeRecords(a, h);
    if a - WholeRecordBytes(a, h) + e >= h {
      CountFromBounds(n + 1, a + e, h);
    } else {
      CountFromBounds(n, a + e, h);
    }
  }
}
