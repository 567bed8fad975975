/** The pure kernels of the SPDK block-device iostat script: turning a
    device's perf counters into a statistics record, the sector counter
    delta across a 32-bit wrap, the checks on the table it prints, and the
    checks on its command-line arguments. Querying the daemons, parsing
    JSON, floating-point rates and printing are not part of this model. */
module IoStat {

  /** A JSON value as the perf dump delivers it: a number (taken as an
      integer here), a string, or an object with its fields in order. */
  datatype Value = Num(n: int) | Text(s: string) | Obj(fields: seq<(string, Value)>)

  /** A Python dict in insertion order. */
  type Dict = seq<(string, Value)>

  const SPDK_MAX_SECTORS := 0xffff_ffff

  /** d[key]: the value stored last under key, or none (a KeyError). */
  function Lookup(d: Dict, key: string): (r: Option<Value>)
    ensures r.Some? <==> exists i :: 0 <= i < |d| && d[i].0 == key
    ensures r.Some? ==> exists i :: 0 <= i < |d| && d[i] == (key, r.value) &&
                                  forall j :: i < j < |d| ==> d[j].0 != key
    decreases |d|
  {
    if d == [] then None
    else if d[|d| - 1].0 == key then Some(d[|d| - 1].1)
    else Lookup(d[..|d| - 1], key)
  }

  // ---------- BdevStat ----------

  /** value >> 9: Python shifts integers arithmetically, which is division
      by 512 rounding down, as Dafny's division by a positive number does. */
  function Sectors(bytes: int): (s: int)
    ensures bytes >= 0 ==> 0 <= s && s * 512 <= bytes < (s + 1) * 512
    ensures s * 512 <= bytes < (s + 1) * 512
  {
    bytes / 512
  }

  /** value["sum"] and value["avgcount"] of a latency counter, or none
      when the value is not an object or lacks either field. */
  function SumAndCount(v: Value): Option<(Value, Value)>
  {
    if !v.Obj? then None
    else
      match (Lookup(v.fields, "sum"), Lookup(v.fields, "avgcount"))
      case (Some(t), Some(c)) => Some((t, c))
      case _ => None
  }

  /** The attributes one counter sets, or none when the constructor
      raises on it (a shift of a non-integer, a missing sum or avgcount).
      Counters it does not know set nothing. */
  function Convert(k: string, v: Value): (r: Option<map<string, Value>>)
  {
    if k == "name" then Some(map["bdev_name" := v])
    else if k == "read_bytes" then (if v.Num? then Some(map["rd_sectors" := Num(Sectors(v.n))]) else None)
    else if k == "write_bytes" then (if v.Num? then Some(map["wr_sectors" := Num(Sectors(v.n))]) else None)
    else if k == "flush_bytes" then (if v.Num? then Some(map["dc_sectors" := Num(Sectors(v.n))]) else None)
    else if k == "write_lat" then
      (match SumAndCount(v) case None => None case Some(p) => Some(map["wr_time" := p.0, "wr_count" := p.1]))
    else if k == "flush_lat" then
      (match SumAndCount(v) case None => None case Some(p) => Some(map["dc_time" := p.0, "dc_count" := p.1]))
    else if k == "read_lat" then
      (match SumAndCount(v) case None => None case Some(p) => Some(map["rd_time" := p.0, "rd_count" := p.1]))
    else Some(map[])
  }

  /** The attributes set by the loop over the dictionary, later counters
      overwriting earlier ones, or none when an entry raises. */
  function Absorb(d: Dict): Option<map<string, Value>>
    decreases |d|
  {
    if d == [] then Some(map[])
    else
      match Absorb(d[..|d| - 1])
      case None => None
      case Some(m) =>
        match Convert(d[|d| - 1].0, d[|d| - 1].1)
        case None => None
        case Some(u) => Some(m + u)
  }

  /** The merge counters and the uptime, set after the loop (the uptime is
      the float 0.0, written as the number 0). */
  function WithDefaults(m: map<string, Value>): map<string, Value>
  {
    m["rd_merges" := Num(0)]["wr_merges" := Num(0)]["dc_merges" := Num(0)]["upt" := Num(0)]
  }

  datatype BdevStat = BdevStat(attrs: map<string, Value>)
  {
    /** Attribute access: an attribute never set reads as 0. */
    function GetAttr(name: string): (v: Value)
      ensures name !in attrs ==> v == Num(0)
      ensures name in attrs ==> v == attrs[name]
    {
      if name in attrs then attrs[name] else Num(0)
    }
  }

  /** BdevStat(dictionary): none if the constructor raises. Without a
      dictionary it returns at once and sets nothing. */
  method NewBdevStat(dictionary: Option<Dict>) returns (r: Option<BdevStat>)
    ensures dictionary.None? ==> r == Some(BdevStat(map[]))
    ensures dictionary.Some? ==> r.Some? == Absorb(dictionary.value).Some?
    ensures dictionary.Some? && r.Some? ==> r.value.attrs == WithDefaults(Absorb(dictionary.value).value)
  {
    if dictionary.None? {
      return Some(BdevStat(map[]));
    }
    var d := dictionary.value;
    var attrs: map<string, Value> := map[];
    var i := 0;
    while i < |d|
      invariant 0 <= i <= |d|
      invariant Absorb(d[..i]) == Some(attrs)
    {
      assert d[..i + 1][..i] == d[..i];
      var (k, value) := d[i];
      var u := Convert(k, value);
      if u.None? {
        AbsorbFails(d, i + 1);
        return None;
      }
      attrs := SetFromCounter(attrs, k, value);
      i := i + 1;
    }
    assert d[..|d|] == d;
    attrs := attrs["rd_merges" := Num(0)];
    attrs := attrs["wr_merges" := Num(0)];
    attrs := attrs["dc_merges" := Num(0)];
    attrs := attrs["upt" := Num(0)];
    return Some(BdevStat(attrs));
  }

  /** One pass of the constructor's loop: the attributes a counter that
      does not raise sets. */
  method SetFromCounter(attrs0: map<string, Value>, k: string, value: Value) returns (attrs: map<string, Value>)
    requires Convert(k, value).Some?
    ensures attrs == attrs0 + Convert(k, value).value
  {
    attrs := attrs0;
    if k == "name" {
      attrs := attrs["bdev_name" := value];
    } else if k == "read_bytes" {
      attrs := attrs["rd_sectors" := Num(value.n / 512)];
    } else if k == "write_bytes" {
      attrs := attrs["wr_sectors" := Num(value.n / 512)];
    } else if k == "flush_bytes" {
      attrs := attrs["dc_sectors" := Num(value.n / 512)];
    } else if k == "write_lat" {
      attrs := attrs["wr_time" := Lookup(value.fields, "sum").value];
      attrs := attrs["wr_count" := Lookup(value.fields, "avgcount").value];
    } else if k == "flush_lat" {
      attrs := attrs["dc_time" := Lookup(value.fields, "sum").value];
      attrs := attrs["dc_count" := Lookup(value.fields, "avgcount").value];
    } else if k == "read_lat" {
      attrs := attrs["rd_time" := Lookup(value.fields, "sum").value];
      attrs := attrs["rd_count" := Lookup(value.fields, "avgcount").value];
    }
  }

  /** Once an entry raises, the whole dictionary does. */
  lemma {:induction false} AbsorbFails(d: Dict, n: nat)
    requires 0 < n <= |d| && Convert(d[n - 1].0, d[n - 1].1).None?
    ensures Absorb(d).None?
    decreases |d|
  {
    if n < |d| {
      assert d[..|d| - 1][n - 1] == d[n - 1];
      AbsorbFails(d[..|d| - 1], n);
    }
  }

  /** The constructor raises exactly when some entry does. */
  lemma {:induction false} AbsorbFailsIff(d: Dict)
    ensures Absorb(d).None? <==> exists i :: 0 <= i < |d| && Convert(d[i].0, d[i].1).None?
    decreases |d|
  {
    if d != [] {
      var init := d[..|d| - 1];
      AbsorbFailsIff(init);
      if exists i :: 0 <= i < |init| && Convert(init[i].0, init[i].1).None? {
        var i :| 0 <= i < |init| && Convert(init[i].0, init[i].1).None?;
        assert d[i] == init[i];
      }
      if exists i :: 0 <= i < |d| && Convert(d[i].0, d[i].1).None? {
        var i :| 0 <= i < |d| && Convert(d[i].0, d[i].1).None?;
        if i < |init| { assert init[i] == d[i]; }
      }
    }
  }

  /** The counter key that sets attribute a, if any. */
  function SourceKey(a: string): Option<string>
  {
    if a == "bdev_name" then Some("name")
    else if a == "rd_sectors" then Some("read_bytes")
    else if a == "wr_sectors" then Some("write_bytes")
    else if a == "dc_sectors" then Some("flush_bytes")
    else if a == "wr_time" || a == "wr_count" then Some("write_lat")
    else if a == "dc_time" || a == "dc_count" then Some("flush_lat")
    else if a == "rd_time" || a == "rd_count" then Some("read_lat")
    else None
  }

  /** What counter value v sets attribute a to: the sectors of a byte
      count, the sum or the avgcount of a latency counter, the name. */
  function Derived(a: string, v: Value): Option<Value>
  {
    if a == "bdev_name" then Some(v)
    else if a == "rd_sectors" || a == "wr_sectors" || a == "dc_sectors" then
      (if v.Num? then Some(Num(Sectors(v.n))) else None)
    else if a == "wr_time" || a == "dc_time" || a == "rd_time" then
      (match SumAndCount(v) case None => None case Some(p) => Some(p.0))
    else if a == "wr_count" || a == "dc_count" || a == "rd_count" then
      (match SumAndCount(v) case None => None case Some(p) => Some(p.1))
    else None
  }

  /** One counter sets exactly the attributes it is the source of, to the
      values Derived gives. */
  lemma ConvertPoint(k: string, v: Value, a: string)
    requires Convert(k, v).Some?
    ensures a in Convert(k, v).value <==> SourceKey(a) == Some(k)
    ensures a in Convert(k, v).value ==> Derived(a, v) == Some(Convert(k, v).value[a])
  {
  }

  /** Each attribute the constructor derives comes from the last value of
      its counter (the sectors are the bytes shifted right by 9, the time
      and count are the latency counter's sum and avgcount), and an
      attribute whose counter is absent, or that no counter sets, is not
      set. */
  lemma {:induction false} AbsorbAttr(d: Dict, a: string)
    requires Absorb(d).Some?
    ensures SourceKey(a).None? ==> a !in Absorb(d).value
    ensures SourceKey(a).Some? ==>
              match Lookup(d, SourceKey(a).value)
              case None => a !in Absorb(d).value
              case Some(v) => a in Absorb(d).value && Derived(a, v) == Some(Absorb(d).value[a])
    decreases |d|
  {
    if d != [] {
      var init, last := d[..|d| - 1], d[|d| - 1];
      AbsorbAttr(init, a);
      ConvertPoint(last.0, last.1, a);
    }
  }

  /** The merge counters read as 0, as does any attribute no counter sets. */
  lemma DefaultsReadZero(d: Dict, a: string)
    requires Absorb(d).Some?
    requires a != "upt" && SourceKey(a).None?
    ensures BdevStat(WithDefaults(Absorb(d).value)).GetAttr(a) == Num(0)
  {
    AbsorbAttr(d, a);
  }

  // ---------- sector deltas ----------

  /** cur - last, masked with 0xffffffff when the counter went backwards
      from a value that fits 32 bits. Python's & with that mask on a
      negative integer is the remainder modulo 2^32. */
  function SectorDelta(cur: int, last: int): int
  {
    var d := cur - last;
    if cur < last && last <= SPDK_MAX_SECTORS then d % (SPDK_MAX_SECTORS + 1) else d
  }

  /** A counter that moved forward gives its difference; a 32-bit counter
      that wrapped once gives the distance travelled across the wrap; a
      wider counter that went backwards gives the negative difference. */
  lemma SectorDeltaSpec(cur: int, last: int)
    ensures cur >= last ==> SectorDelta(cur, last) == cur - last
    ensures 0 <= cur < last <= SPDK_MAX_SECTORS ==>
              SectorDelta(cur, last) == cur + (SPDK_MAX_SECTORS + 1) - last &&
              0 < SectorDelta(cur, last) <= SPDK_MAX_SECTORS
    ensures cur < last && last > SPDK_MAX_SECTORS ==> SectorDelta(cur, last) < 0
    ensures 0 <= cur <= SPDK_MAX_SECTORS && 0 <= last <= SPDK_MAX_SECTORS ==>
              0 <= SectorDelta(cur, last) <= SPDK_MAX_SECTORS &&
              (last + SectorDelta(cur, last)) % (SPDK_MAX_SECTORS + 1) == cur
  {
  }

  // ---------- the table ----------

  /** A table cell before str() is applied to it. */
  datatype Cell = Str(s: string) | Int(i: int)

  /** The decimal digits of n, most significant first, as str() writes them. */
  function Digits(n: nat): (r: string)
    ensures |r| > 0
    ensures forall k :: 0 <= k < |r| ==> '0' <= r[k] <= '9'
  {
    var d := ['0' + (n % 10) as char];
    if n < 10 then d else Digits(n / 10) + d
  }

  /** The number a string of decimal digits denotes, read most significant
      digit first. */
  ghost function DigitsValue(s: string): int
    decreases |s|
  {
    if s == [] then 0
    else DigitsValue(s[..|s| - 1]) * 10 + (s[|s| - 1] as int - '0' as int)
  }

  /** Digits(n) denotes n, and it has a leading zero only when n is zero,
      in which case it is exactly "0". */
  lemma {:induction false} DigitsRoundTrip(n: nat)
    ensures DigitsValue(Digits(n)) == n
    ensures n == 0 ==> Digits(n) == "0"
    ensures n > 0 ==> Digits(n)[0] != '0'
  {
    if n >= 10 {
      DigitsRoundTrip(n / 10);
      var s := Digits(n);
      assert s[..|s| - 1] == Digits(n / 10);
      assert s[0] == Digits(n / 10)[0];
    }
  }

  /** str(cell). */
  function Show(c: Cell): string
  {
    match c
    case Str(s) => s
    case Int(i) => if i < 0 then "-" + Digits(-i) else Digits(i)
  }

  function ShowRow(row: seq<Cell>): (r: seq<Cell>)
    ensures |r| == |row| && forall i :: 0 <= i < |r| ==> r[i] == Str(Show(row[i]))
  {
    seq(|row|, i requires 0 <= i < |row| => Str(Show(row[i])))
  }

  /** str() of a string is the string, so converting twice is converting
      once. */
  lemma ShowRowIdempotent(row: seq<Cell>)
    ensures ShowRow(ShowRow(row)) == ShowRow(row)
  {
  }

  /** The index of the first row whose length differs from the first
      row's, or |rows| when there is none. */
  function FirstBadRow(rows: seq<seq<Cell>>): (b: nat)
    requires |rows| > 0
    ensures 0 < b <= |rows|
    ensures forall j :: 0 <= j < b ==> |rows[j]| == |rows[0]|
    ensures b < |rows| ==> |rows[b]| != |rows[0]|
  {
    FirstBadFrom(rows, 1)
  }

  function FirstBadFrom(rows: seq<seq<Cell>>, j: nat): (b: nat)
    requires 0 < j <= |rows|
    requires forall k :: 0 <= k < j ==> |rows[k]| == |rows[0]|
    ensures j <= b <= |rows|
    ensures forall k :: 0 <= k < b ==> |rows[k]| == |rows[0]|
    ensures b < |rows| ==> |rows[b]| != |rows[0]|
    decreases |rows| - j
  {
    if j == |rows| || |rows[j]| != |rows[0]| then j else FirstBadFrom(rows, j + 1)
  }

  /** _stat_format's checks and widths, with leave_first false: it raises
      on no rows (touching nothing), on a row whose length differs from
      the first row's (after converting the rows before it to strings), and
      on a row length other than the header's (after converting every
      row). Otherwise every row is converted and the width of column i is
      the larger of the header's length and the longest cell in column i. */
  method StatFormat(data: array<seq<Cell>>, header: seq<string>) returns (r: Option<seq<nat>>)
    modifies data
    ensures data.Length == 0 ==> r.None? && data[..] == old(data[..])
    ensures data.Length > 0 ==>
              var rows := old(data[..]);
              var b := FirstBadRow(rows);
              && (forall j :: 0 <= j < b ==> data[j] == ShowRow(rows[j]))
              && (forall j :: b <= j < data.Length ==> data[j] == rows[j])
              && (r.Some? <==> b == |rows| && |rows[0]| == |header|)
    ensures r.Some? ==>
              var w := r.value;
              && |w| == |header|
              && (forall i :: 0 <= i < |w| ==> w[i] >= |header[i]|)
              && (forall i, j :: 0 <= i < |w| && 0 <= j < data.Length ==> |data[j]| == |w| && w[i] >= |Show(data[j][i])|)
              && (forall i :: 0 <= i < |w| ==>
                    w[i] == |header[i]| || exists j :: 0 <= j < data.Length && w[i] == |Show(data[j][i])|)
  {
    if data.Length == 0 {
      return None;
    }
    var ok := ConvertRows(data);
    if !ok {
      return None;
    }
    if |data[0]| != |header| {
      return None;
    }
    var sizes := ColumnWidths(data, header);
    return Some(sizes);
  }

  /** The loop over the rows: each row whose length is the first row's is
      converted to strings in place, up to the first row that is not. */
  method ConvertRows(data: array<seq<Cell>>) returns (ok: bool)
    requires data.Length > 0
    modifies data
    ensures var rows := old(data[..]);
            var b := FirstBadRow(rows);
            && (ok <==> b == data.Length)
            && (forall j :: 0 <= j < b ==> data[j] == ShowRow(rows[j]))
            && (forall j :: b <= j < data.Length ==> data[j] == rows[j])
  {
    ghost var rows := data[..];
    var listLen := |data[0]|;
    var k := 0;
    while k < data.Length
      invariant 0 <= k <= data.Length
      invariant forall j :: 0 <= j < k ==> |rows[j]| == listLen && data[j] == ShowRow(rows[j])
      invariant forall j :: k <= j < data.Length ==> data[j] == rows[j]
    {
      if |data[k]| != listLen {
        FirstBadAt(rows, k);
        return false;
      }
      data[k] := ShowRow(data[k]);
      k := k + 1;
    }
    FirstBadAt(rows, data.Length);
    return true;
  }

  /** The widths: column i is as wide as its header and as its longest
      cell, and exactly as wide as one of them. */
  method ColumnWidths(data: array<seq<Cell>>, header: seq<string>) returns (sizes: seq<nat>)
    requires forall j :: 0 <= j < data.Length ==> |data[j]| == |header|
    ensures |sizes| == |header|
    ensures forall i :: 0 <= i < |sizes| ==> sizes[i] >= |header[i]|
    ensures forall i, j :: 0 <= i < |sizes| && 0 <= j < data.Length ==> sizes[i] >= |Show(data[j][i])|
    ensures forall i :: 0 <= i < |sizes| ==>
              sizes[i] == |header[i]| || exists j :: 0 <= j < data.Length && sizes[i] == |Show(data[j][i])|
  {
    sizes := [];
    var i := 0;
    while i < |header|
      invariant 0 <= i <= |header| && |sizes| == i
      invariant forall c :: 0 <= c < i ==> sizes[c] == ColumnWidth(data[..], header[c], c)
    {
      var w := MaxCell(data, i);
      sizes := sizes + [if |header[i]| > w then |header[i]| else w];
      i := i + 1;
    }
    WidthsSpec(data[..], header, sizes);
  }

  lemma WidthsSpec(rows: seq<seq<Cell>>, header: seq<string>, sizes: seq<nat>)
    requires forall j :: 0 <= j < |rows| ==> |rows[j]| == |header|
    requires |sizes| == |header|
    requires forall c :: 0 <= c < |sizes| ==> sizes[c] == ColumnWidth(rows, header[c], c)
    ensures forall i :: 0 <= i < |sizes| ==> sizes[i] >= |header[i]|
    ensures forall i, j :: 0 <= i < |sizes| && 0 <= j < |rows| ==> sizes[i] >= |Show(rows[j][i])|
    ensures forall i :: 0 <= i < |sizes| ==>
              sizes[i] == |header[i]| || exists j :: 0 <= j < |rows| && sizes[i] == |Show(rows[j][i])|
  {
    forall c | 0 <= c < |header|
      ensures |header[c]| <= sizes[c]
      ensures forall j :: 0 <= j < |rows| ==> sizes[c] >= |Show(rows[j][c])|
      ensures sizes[c] == |header[c]| || exists j :: 0 <= j < |rows| && sizes[c] == |Show(rows[j][c])|
    {
      ColumnWidthSpec(rows, header[c], c);
    }
  }

  lemma {:induction false} FirstBadAt(rows: seq<seq<Cell>>, k: nat)
    requires 0 < |rows| && 0 < k <= |rows|
    requires forall j :: 0 <= j < k ==> |rows[j]| == |rows[0]|
    requires k < |rows| ==> |rows[k]| != |rows[0]|
    ensures FirstBadRow(rows) == k
  {
  }

  /** The width of column c: the header's length or the longest cell. */
  ghost function ColumnWidth(rows: seq<seq<Cell>>, head: string, c: nat): nat
  {
    var w := LongestCell(rows, c);
    if |head| > w then |head| else w
  }

  /** The longest str() in column c (0 for no rows). */
  ghost function LongestCell(rows: seq<seq<Cell>>, c: nat): (w: nat)
    decreases |rows|
  {
    if rows == [] then 0
    else
      var w := LongestCell(rows[..|rows| - 1], c);
      var last := rows[|rows| - 1];
      var l := if c < |last| then |Show(last[c])| else 0;
      if l > w then l else w
  }

  lemma {:induction false} LongestCellSpec(rows: seq<seq<Cell>>, c: nat)
    requires forall j :: 0 <= j < |rows| ==> c < |rows[j]|
    ensures forall j :: 0 <= j < |rows| ==> LongestCell(rows, c) >= |Show(rows[j][c])|
    ensures LongestCell(rows, c) == 0 || exists j :: 0 <= j < |rows| && LongestCell(rows, c) == |Show(rows[j][c])|
    decreases |rows|
  {
    if rows != [] {
      var init := rows[..|rows| - 1];
      LongestCellSpec(init, c);
      assert forall j :: 0 <= j < |init| ==> init[j] == rows[j];
    }
  }

  lemma ColumnWidthSpec(rows: seq<seq<Cell>>, head: string, c: nat)
    requires forall j :: 0 <= j < |rows| ==> c < |rows[j]|
    ensures ColumnWidth(rows, head, c) >= |head|
    ensures forall j :: 0 <= j < |rows| ==> ColumnWidth(rows, head, c) >= |Show(rows[j][c])|
    ensures ColumnWidth(rows, head, c) == |head| ||
            exists j :: 0 <= j < |rows| && ColumnWidth(rows, head, c) == |Show(rows[j][c])|
  {
    LongestCellSpec(rows, c);
  }

  /** The inner loop of the widths: the longest cell of column c. */
  method MaxCell(data: array<seq<Cell>>, c: nat) returns (w: nat)
    ensures w == LongestCell(data[..], c)
  {
    w := 0;
    var j := 0;
    while j < data.Length
      invariant 0 <= j <= data.Length
      invariant w == LongestCell(data[..j], c)
    {
      assert data[..j + 1][..j] == data[..j];
      var row := data[j];
      var l := if c < |row| then |Show(row[c])| else 0;
      w := if l > w then l else w;
      j := j + 1;
    }
    assert data[..data.Length] == data[..];
  }

  // ---------- arguments ----------

  /** check_positive: the value itself when positive, an error otherwise. */
  function CheckPositive(v: int): (r: Option<int>)
    ensures r.Some? <==> v > 0
    ensures r.Some? ==> r.value == v
  {
    if v <= 0 then None else Some(v)
  }

  /** The interval and the running time are given together or not at all;
      either one alone is an error. */
  function ArgsConsistent(interval: int, timeInSecond: int): (ok: bool)
    ensures ok <==> (interval == 0 <==> timeInSecond == 0)
  {
    !((interval == 0 && timeInSecond != 0) || (interval != 0 && timeInSecond == 0))
  }

  datatype Option<T> = None | Some(value: T)
}
