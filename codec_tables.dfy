/** The generated `DECODE_TABLE` and `ENCODE_TABLE` as the Big5 and
    Shift_JIS codecs read them, and the link between the generators and the
    codecs: for an index file whose rows the codec can use, the tables
    `generate_big5_tables` and `generate_shiftjis_tables` write are sorted
    by code point and agree with each other in the sense the codecs'
    round-trip lemmas assume (`Big5.Consistent`, `ShiftJis.Consistent`). */
module CodecTables {
  import opened Wrappers
  import opened Text
  import opened Rows
  import opened Sorting
  import opened DecodeTables
  import opened IndexFiles
  import Lookup
  import Dedup
  import WhatwgTables
  import Big5
  import ShiftJis
  import Big5Index
  import ShiftJisIndex

  // ---------------------------------------------------------------------
  // The tables as written

  /** A decode table whose code points can be written as `char`s. */
  predicate DecodeWritable(dec: seq<Option<int>>) {
    forall k :: 0 <= k < |dec| && dec[k].Some? ==> IsScalar(dec[k].value)
  }

  /** `DECODE_TABLE` as written: each code point as a `char`, and U+FFFD
      where the generator holds `None`. */
  function DecodeChars(dec: seq<Option<int>>): seq<Scalar>
    requires DecodeWritable(dec)
  {
    seq(|dec|, k requires 0 <= k < |dec| => if dec[k].Some? then dec[k].value as Scalar else Replacement)
  }

  /** An encode entry that can be written as `(char, [u8; 2])`. */
  predicate EntryWritable(e: WhatwgTables.EncodeEntry) {
    IsScalar(e.0) && 0 <= e.1.0 < 0x100 && 0 <= e.1.1 < 0x100
  }

  predicate EncodeWritable(enc: seq<WhatwgTables.EncodeEntry>) {
    forall k :: 0 <= k < |enc| ==> EntryWritable(enc[k])
  }

  /** `ENCODE_TABLE` as written. */
  function EncodeChars(enc: seq<WhatwgTables.EncodeEntry>): seq<(Scalar, (Byte, Byte))>
    requires EncodeWritable(enc)
  {
    seq(|enc|, k requires 0 <= k < |enc| => (enc[k].0 as Scalar, (enc[k].1.0 as Byte, enc[k].1.1 as Byte)))
  }

  // ---------------------------------------------------------------------
  // Rows the codecs can use

  /** A Big5 index row the codec can use: its pointer has a lead byte in
      0x81..0xFE and is none of the four grapheme pointers, and its code
      point is a scalar value other than U+FFFD (which the decode table
      reserves for "undefined"). */
  predicate Big5Row(r: Row) {
    && 0 <= r.0 < (0xFE - 0x81 + 1) * Big5Index.TrailCount
    && r.0 != 1133 && r.0 != 1135 && r.0 != 1164 && r.0 != 1166
    && IsScalar(r.1) && r.1 != Replacement
  }

  /** A Shift_JIS index row the codec can use: its pointer has a lead byte
      in 0x81..0x9F or 0xE0..0xFC and lies outside the end-user-defined
      pointers (which the decoder computes instead of looking up), and its
      code point is a scalar value other than U+FFFD. */
  predicate ShiftJisRow(r: Row) {
    && 0 <= r.0 < (0xFC - 0xC1 + 1) * ShiftJisIndex.TrailCount
    && !(ShiftJisIndex.EudcFirstPointer <= r.0 <= ShiftJisIndex.EudcLastPointer)
    && IsScalar(r.1) && r.1 != Replacement
  }

  // ---------------------------------------------------------------------
  // What the generators guarantee

  /** Every encode table entry is `(code point, index_to_bytes(pointer))`
      of some row of the loaded index file. */
  lemma EntryFromRow(enc: WhatwgTables.Encoding, lines: seq<string>, j: int) returns (r: Row)
    requires LoadedTable(Whatwg, lines).Success?
    requires 0 <= j < |WhatwgTables.GeneratedTables(enc, lines).value.encode|
    ensures r in LoadedTable(Whatwg, lines).value
    ensures WhatwgTables.GeneratedTables(enc, lines).value.encode[j] == (r.1, WhatwgTables.PointerBytes(enc, r.0))
  {
    var table := LoadedTable(Whatwg, lines).value;
    var d := WhatwgTables.Deduped(enc, table);
    var e := WhatwgTables.GeneratedTables(enc, lines).value.encode;
    WhatwgTables.EncodeTableSpec(enc, lines);
    assert e[j] in multiset(WhatwgTables.EncodeEntries(enc, d));
    var k :| 0 <= k < |d| && WhatwgTables.EncodeEntries(enc, d)[k] == e[j];
    r := d[k];
    assert r in d;
    if enc == WhatwgTables.Big5 {
      Dedup.Big5DedupedSpec(table);
      Dedup.SubseqMembers(d, table, d[k]);
    } else {
      Dedup.ShiftJisDedupedSpec(table);
    }
  }

  /** A row of the loaded file sits at its pointer in the decode table. */
  lemma RowInDecodeTable(table: seq<Row>, dec: seq<Option<int>>, r: Row)
    requires PlacedAt(table, 0, dec) && r in table
    ensures 0 <= r.0 < |dec| && dec[r.0] == Some(r.1)
  {
    var i :| 0 <= i < |table| && table[i] == r;
  }

  /** A defined position of the decode table holds the code point of a row
      whose pointer it is. */
  lemma DefinedFromRow(table: seq<Row>, dec: seq<Option<int>>, p: int)
    requires PlacedAt(table, 0, dec) && 0 <= p < |dec| && dec[p].Some?
    ensures exists k :: 0 <= k < |table| && table[k].0 == p && dec[p] == Some(table[k].1)
  {
  }

  /** The decode table of index rows with scalar code points is writable. */
  lemma DecodeTableWritable(table: seq<Row>, dec: seq<Option<int>>)
    requires PlacedAt(table, 0, dec)
    requires forall k :: 0 <= k < |table| ==> IsScalar(table[k].1)
    ensures DecodeWritable(dec)
  {
    forall p | 0 <= p < |dec| && dec[p].Some?
      ensures IsScalar(dec[p].value)
    {
      DefinedFromRow(table, dec, p);
    }
  }

  /** An encode table sorted by `(code point, bytes)` is sorted by code
      point. */
  lemma SortedEntriesByKey(enc: seq<WhatwgTables.EncodeEntry>)
    requires SortedBy(enc, WhatwgTables.EntryLe) && EncodeWritable(enc)
    ensures Lookup.SortedByKey(EncodeChars(enc))
  {
    var t := EncodeChars(enc);
    forall i, j | 0 <= i < j < |t|
      ensures t[i].0 <= t[j].0
    {
      assert WhatwgTables.EntryLe(enc[i], enc[j]);
    }
  }

  /** The facts both generators share: the decode table places every row
      and is writable, and the encode table is sorted. */
  lemma GeneratedFacts(enc: WhatwgTables.Encoding, lines: seq<string>)
    requires LoadedTable(Whatwg, lines).Success?
    requires var table := LoadedTable(Whatwg, lines).value;
      DistinctIndices(table) && forall k :: 0 <= k < |table| ==> table[k].0 >= 0 && IsScalar(table[k].1)
    ensures var t := WhatwgTables.GeneratedTables(enc, lines).value;
      && PlacedAt(LoadedTable(Whatwg, lines).value, 0, t.decode)
      && DecodeWritable(t.decode)
      && SortedBy(t.encode, WhatwgTables.EntryLe)
  {
    var table := LoadedTable(Whatwg, lines).value;
    var t := WhatwgTables.GeneratedTables(enc, lines).value;
    WhatwgTables.DecodeTableSpec(enc, lines);
    WhatwgTables.EncodeTableSpec(enc, lines);
    DecodeTableWritable(table, t.decode);
  }

  // ---------------------------------------------------------------------
  // Big5

  /** The entry a usable Big5 row gives: writable, and it decodes back
      through a decode table that places the row. */
  lemma Big5RowAgrees(table: seq<Row>, dec: seq<Option<int>>, r: Row)
    requires PlacedAt(table, 0, dec) && DecodeWritable(dec) && r in table && Big5Row(r)
    ensures var b := Big5Index.IndexToBytes(r.0);
      && EntryWritable((r.1, b))
      && Big5.EntryDecodes(DecodeChars(dec), (r.1 as Scalar, (b.0 as Byte, b.1 as Byte)))
  {
    Big5Index.LeadIsByte(r.0);
    Big5Index.IndexRoundTrip(r.0);
    RowInDecodeTable(table, dec, r);
  }

  /** The grapheme pointers are undefined in a decode table that places
      usable Big5 rows only. */
  lemma Big5GraphemesUndefined(table: seq<Row>, dec: seq<Option<int>>, g: int)
    requires PlacedAt(table, 0, dec) && DecodeWritable(dec)
    requires forall k :: 0 <= k < |table| ==> Big5Row(table[k])
    requires 0 <= g < 4
    ensures var p := Big5Index.Graphemes[g].0;
      !(0 <= p < |dec|) || DecodeChars(dec)[p] == Replacement
  {
    var p := Big5Index.Graphemes[g].0;
    if 0 <= p < |dec| {
      assert forall k :: 0 <= k < |table| ==> table[k].0 != p by {
        forall k | 0 <= k < |table|
          ensures table[k].0 != p
        {
          assert Big5Row(table[k]);
        }
      }
    }
  }

  /** For an index file of usable rows with distinct pointers,
      `generate_big5_tables` writes tables the Big5 codec can read, sorted
      by code point, that agree: so `Big5.RoundTrip` and
      `Big5.StreamRoundTrip` hold for them. */
  lemma Big5TablesAgree(lines: seq<string>)
    requires LoadedTable(Whatwg, lines).Success?
    requires var table := LoadedTable(Whatwg, lines).value;
      DistinctIndices(table) && forall k :: 0 <= k < |table| ==> Big5Row(table[k])
    ensures var t := WhatwgTables.GeneratedTables(WhatwgTables.Big5, lines).value;
      && DecodeWritable(t.decode) && EncodeWritable(t.encode)
      && Lookup.SortedByKey(EncodeChars(t.encode))
      && Big5.Consistent(EncodeChars(t.encode), DecodeChars(t.decode))
  {
    var table := LoadedTable(Whatwg, lines).value;
    var t := WhatwgTables.GeneratedTables(WhatwgTables.Big5, lines).value;
    GeneratedFacts(WhatwgTables.Big5, lines);
    forall j | 0 <= j < |t.encode|
      ensures EntryWritable(t.encode[j])
      ensures var e := t.encode[j];
        Big5.EntryDecodes(DecodeChars(t.decode), (e.0 as Scalar, (e.1.0 as Byte, e.1.1 as Byte)))
    {
      var r := EntryFromRow(WhatwgTables.Big5, lines, j);
      assert t.encode[j] == (r.1, Big5Index.IndexToBytes(r.0));
      var i :| 0 <= i < |table| && table[i] == r;
      Big5RowAgrees(table, t.decode, r);
    }
    SortedEntriesByKey(t.encode);
    forall g | 0 <= g < 4
      ensures var p := Big5Index.Graphemes[g].0; !(0 <= p < |t.decode|) || DecodeChars(t.decode)[p] == Replacement
    {
      Big5GraphemesUndefined(table, t.decode, g);
    }
  }

  // ---------------------------------------------------------------------
  // Shift_JIS

  /** The entry a usable Shift_JIS row gives: writable, and it decodes
      back through a decode table that places the row. */
  lemma ShiftJisRowAgrees(table: seq<Row>, dec: seq<Option<int>>, r: Row)
    requires PlacedAt(table, 0, dec) && DecodeWritable(dec) && r in table && ShiftJisRow(r)
    ensures var b := ShiftJisIndex.IndexToBytes(r.0);
      && EntryWritable((r.1, b))
      && ShiftJis.EntryDecodes(DecodeChars(dec), (r.1 as Scalar, (b.0 as Byte, b.1 as Byte)))
  {
    ShiftJisIndex.IndexRoundTrip(r.0);
    RowInDecodeTable(table, dec, r);
  }

  /** For an index file of usable rows with distinct pointers,
      `generate_shiftjis_tables` writes tables the Shift_JIS codec can
      read, sorted by code point, that agree: so `ShiftJis.RoundTrip` and
      `ShiftJis.StreamRoundTrip` hold for them. */
  lemma ShiftJisTablesAgree(lines: seq<string>)
    requires LoadedTable(Whatwg, lines).Success?
    requires var table := LoadedTable(Whatwg, lines).value;
      DistinctIndices(table) && forall k :: 0 <= k < |table| ==> ShiftJisRow(table[k])
    ensures var t := WhatwgTables.GeneratedTables(WhatwgTables.ShiftJis, lines).value;
      && DecodeWritable(t.decode) && EncodeWritable(t.encode)
      && Lookup.SortedByKey(EncodeChars(t.encode))
      && ShiftJis.Consistent(EncodeChars(t.encode), DecodeChars(t.decode))
  {
    var table := LoadedTable(Whatwg, lines).value;
    var t := WhatwgTables.GeneratedTables(WhatwgTables.ShiftJis, lines).value;
    GeneratedFacts(WhatwgTables.ShiftJis, lines);
    forall j | 0 <= j < |t.encode|
      ensures EntryWritable(t.encode[j])
      ensures var e := t.encode[j];
        ShiftJis.EntryDecodes(DecodeChars(t.decode), (e.0 as Scalar, (e.1.0 as Byte, e.1.1 as Byte)))
    {
      var r := EntryFromRow(WhatwgTables.ShiftJis, lines, j);
      assert t.encode[j] == (r.1, ShiftJisIndex.IndexToBytes(r.0));
      var i :| 0 <= i < |table| && table[i] == r;
      ShiftJisRowAgrees(table, t.decode, r);
    }
    SortedEntriesByKey(t.encode);
  }
}
