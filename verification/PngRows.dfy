/** The scanlines of an image pass, kernel/png.c: each is stored as a filter type and
    the filtered bytes, and restored from the one above it. */
module PngRows {
  import opened Bits
  import opened PngFilter

  /** Restored scanlines, and what follows them in the stream. */
  datatype Parsed = Parsed(rows: seq<seq<byte>>, rest: seq<byte>)

  /** The next `count` scanlines of a stream, or the first error. */
  function RowsOf(raw: seq<byte>, count: nat, len: nat, above: seq<byte>, bpp: nat): (r: Result<Parsed>)
    requires 0 < bpp && |above| == len
    ensures r.Ok? ==> |r.value.rows| == count && |r.value.rest| <= |raw|
    ensures r.Ok? ==> forall row :: row in r.value.rows ==> |row| == len
  {
    if count == 0 then Ok(Parsed([], raw))
    else if |raw| < 1 + len then Truncated
    else if raw[0] > 4 then Corrupt
    else
      var row := Restored(raw[0], raw[1..1 + len], above, bpp);
      match RowsOf(raw[1 + len..], count - 1, len, row, bpp)
      case Ok(p) => Ok(Parsed([row] + p.rows, p.rest))
      case e => e
  }

  predicate Lines(rows: seq<seq<byte>>, len: nat) {
    forall i :: 0 <= i < |rows| ==> |rows[i]| == len
  }

  /** Scanlines as an encoder stores them, each with a filter of its choice. */
  function Stored(filters: seq<byte>, rows: seq<seq<byte>>, len: nat, above: seq<byte>, bpp: nat): (raw: seq<byte>)
    requires 0 < bpp && |filters| == |rows| && |above| == len && Lines(rows, len)
  {
    if rows == [] then []
    else [filters[0]] + Filtered(filters[0], rows[0], above, bpp) + Stored(filters[1..], rows[1..], len, rows[0], bpp)
  }

  /** One scanline taken off the front of a stream. */
  lemma {:induction false} RowsNext(raw: seq<byte>, filter: byte, f: seq<byte>, next: seq<byte>, count: nat, len: nat,
      above: seq<byte>, bpp: nat)
    requires 0 < bpp && |above| == len && |f| == len && filter <= 4 && count > 0
    requires raw == [filter] + f + next
    ensures RowsOf(raw, count, len, above, bpp) ==
            Prepend([Restored(filter, f, above, bpp)],
              RowsOf(next, count - 1, len, Restored(filter, f, above, bpp), bpp))
  {
    hide Restored;
    assert raw[1..1 + len] == f && raw[1 + len..] == next;
  }

  /** A result with scanlines put in front. */
  function Prepend(rows: seq<seq<byte>>, r: Result<Parsed>): Result<Parsed> {
    match r
    case Ok(p) => Ok(Parsed(rows + p.rows, p.rest))
    case e => e
  }

  lemma {:induction false} PrependRow(rows: seq<seq<byte>>, row: seq<byte>, r: Result<Parsed>)
    ensures Prepend(rows + [row], r) == Prepend(rows, Prepend([row], r))
    ensures Prepend([], r) == r
  {
    if r.Ok? {
      assert rows + [row] + r.value.rows == rows + ([row] + r.value.rows);
      assert [] + r.value.rows == r.value.rows;
    }
  }

  /** Whatever filters the encoder chose, the scanlines come back. */
  lemma {:induction false} RowsStored(filters: seq<byte>, rows: seq<seq<byte>>, len: nat, above: seq<byte>, bpp: nat,
      rest: seq<byte>)
    requires 0 < bpp && |filters| == |rows| && |above| == len && Lines(rows, len)
    requires forall i :: 0 <= i < |filters| ==> filters[i] <= 4
    ensures RowsOf(Stored(filters, rows, len, above, bpp) + rest, |rows|, len, above, bpp) == Ok(Parsed(rows, rest))
  {
    hide Filtered, Restored, RowsOf;
    var raw := Stored(filters, rows, len, above, bpp) + rest;
    if rows == [] {
      assert raw == rest;
      NoRows(rest, len, above, bpp);
    } else {
      var f := Filtered(filters[0], rows[0], above, bpp);
      var next := Stored(filters[1..], rows[1..], len, rows[0], bpp) + rest;
      assert raw == [filters[0]] + f + next;
      RestoreFiltered(filters[0], rows[0], above, bpp);
      RowsNext(raw, filters[0], f, next, |rows|, len, above, bpp);
      RowsStored(filters[1..], rows[1..], len, rows[0], bpp, rest);
      assert [rows[0]] + rows[1..] == rows;
    }
  }

  lemma {:induction false} NoRows(rest: seq<byte>, len: nat, above: seq<byte>, bpp: nat)
    requires 0 < bpp && |above| == len
    ensures RowsOf(rest, 0, len, above, bpp) == Ok(Parsed([], rest))
  {
  }

  /** The filter types of the next `count` scanlines. */
  function FiltersOf(raw: seq<byte>, count: nat, len: nat): (f: seq<byte>)
    ensures |f| <= count
  {
    if count == 0 || |raw| < 1 + len then [] else [raw[0]] + FiltersOf(raw[1 + len..], count - 1, len)
  }

  /** What is accepted is what an encoder would have stored: nothing is lost or made up. */
  lemma {:induction false} StoredRows(raw: seq<byte>, count: nat, len: nat, above: seq<byte>, bpp: nat)
    requires 0 < bpp && |above| == len && RowsOf(raw, count, len, above, bpp).Ok?
    ensures var p := RowsOf(raw, count, len, above, bpp).value;
            && Lines(p.rows, len) && |FiltersOf(raw, count, len)| == |p.rows|
            && Stored(FiltersOf(raw, count, len), p.rows, len, above, bpp) + p.rest == raw
            && forall f :: f in FiltersOf(raw, count, len) ==> f <= 4
  {
    hide Filtered, Restored;
    if count > 0 {
      var f, next := raw[1..1 + len], raw[1 + len..];
      var row := Restored(raw[0], f, above, bpp);
      StoredRows(next, count - 1, len, row, bpp);
      FilterRestored(raw[0], f, above, bpp);
      var p, q := RowsOf(raw, count, len, above, bpp).value, RowsOf(next, count - 1, len, row, bpp).value;
      var gs := FiltersOf(next, count - 1, len);
      assert p.rows == [row] + q.rows && p.rest == q.rest && FiltersOf(raw, count, len) == [raw[0]] + gs;
      hide RowsOf, FiltersOf, Stored;
      StoredNext(raw[0], gs, row, q.rows, len, above, bpp);
      Regroup(raw, f, Stored(gs, q.rows, len, row, bpp), q.rest, len);
    }
  }

  lemma {:induction false} Regroup(raw: seq<byte>, f: seq<byte>, s: seq<byte>, rest: seq<byte>, len: nat)
    requires |raw| >= 1 + len && f == raw[1..1 + len] && s + rest == raw[1 + len..]
    ensures [raw[0]] + f + s + rest == raw
  {
    assert raw == [raw[0]] + f + (s + rest);
  }

  lemma {:induction false} StoredNext(filter: byte, filters: seq<byte>, row: seq<byte>, rows: seq<seq<byte>>, len: nat,
      above: seq<byte>, bpp: nat)
    requires 0 < bpp && |filters| == |rows| && |above| == len == |row| && Lines(rows, len)
    ensures Lines([row] + rows, len)
    ensures Stored([filter] + filters, [row] + rows, len, above, bpp) ==
            [filter] + Filtered(filter, row, above, bpp) + Stored(filters, rows, len, row, bpp)
  {
    hide Filtered;
    assert ([filter] + filters)[1..] == filters && ([row] + rows)[1..] == rows;
  }

  /** One round of the row loop of `png_decode`: where the next scanline begins. */
  method NextRow(raw: seq<byte>, rp: nat, cur: array<byte>, prev: array<byte>, bpp: nat) returns (next: Result<nat>)
    requires 0 < bpp && rp <= |raw| && cur != prev && cur.Length == prev.Length
    modifies cur
    ensures next == if |raw| < rp + 1 + cur.Length then Truncated else if raw[rp] > 4 then Corrupt
      else Ok(rp + 1 + cur.Length)
    ensures next.Ok? ==> cur[..] == Restored(raw[rp], raw[rp + 1..rp + 1 + cur.Length], prev[..], bpp)
  {
    hide Restored;
    var len := cur.Length;
    if rp + 1 + len > |raw| {
      return Truncated;
    }
    forall i | 0 <= i < len {
      cur[i] := raw[rp + 1 + i];
    }
    assert cur[..] == raw[rp + 1..rp + 1 + len];
    var ok := Unfilter(raw[rp], cur, prev, bpp);
    return if ok then Ok(rp + 1 + len) else Corrupt;
  }

  /** The row loop: two scanline buffers that change places. */
  method PassRows(raw: seq<byte>, start: nat, count: nat, len: nat, bpp: nat) returns (result: Result<Parsed>)
    requires 0 < bpp && start <= |raw|
    ensures result == RowsOf(raw[start..], count, len, Zeros(len), bpp)
  {
    hide Restored, RowsOf;
    var rp: nat := start;
    var prev, cur := new byte[len](_ => 0), new byte[len](_ => 0);
    assert prev[..] == Zeros(len);
    var rows: seq<seq<byte>> := [];
    PrependRow([], [], RowsOf(raw[start..], count, len, Zeros(len), bpp));
    for py := 0 to count
      invariant fresh(prev) && fresh(cur) && prev != cur && prev.Length == cur.Length == len
      invariant rp <= |raw|
      invariant RowsOf(raw[start..], count, len, Zeros(len), bpp) ==
        Prepend(rows, RowsOf(raw[rp..], count - py, len, prev[..], bpp))
    {
      RowsHead(raw, rp, count - py, len, prev[..], bpp);
      var next := NextRow(raw, rp, cur, prev, bpp);
      match next {
        case Truncated => return Truncated;
        case Corrupt => return Corrupt;
        case Ok(after) =>
          PrependRow(rows, cur[..], RowsOf(raw[after..], count - py - 1, len, cur[..], bpp));
          rp := after;
      }
      rows := rows + [cur[..]];
      prev, cur := cur, prev;
    }
    NoRows(raw[rp..], len, prev[..], bpp);
    assert rows + [] == rows;
    result := Ok(Parsed(rows, raw[rp..]));
  }

  lemma {:induction false} RowsHead(raw: seq<byte>, rp: nat, count: nat, len: nat, above: seq<byte>, bpp: nat)
    requires 0 < bpp && |above| == len && rp <= |raw| && count > 0
    ensures |raw| < rp + 1 + len ==> RowsOf(raw[rp..], count, len, above, bpp) == Truncated
    ensures |raw| >= rp + 1 + len && raw[rp] > 4 ==> RowsOf(raw[rp..], count, len, above, bpp) == Corrupt
    ensures |raw| >= rp + 1 + len && raw[rp] <= 4 ==>
      var row := Restored(raw[rp], raw[rp + 1..rp + 1 + len], above, bpp);
      RowsOf(raw[rp..], count, len, above, bpp) == Prepend([row], RowsOf(raw[rp + 1 + len..], count - 1, len, row, bpp))
  {
    hide Restored;
    if |raw| >= rp + 1 + len {
      var f, next := raw[rp + 1..rp + 1 + len], raw[rp + 1 + len..];
      assert raw[rp..] == [raw[rp]] + f + next;
      if raw[rp] <= 4 { RowsNext(raw[rp..], raw[rp], f, next, count, len, above, bpp); }
    }
  }
}
