/**
 * The record layouts of open-wlan-cal (src/open-wlan-cal.c): the MAC
 * address, the IQ tuned values and the TX power curve, each rebuilt from a
 * CAL block payload into the fixed-size record the WLAN driver's sysfs file
 * takes. The payload is what `cal_read_block` returns; `None` stands for a
 * failed length `assert`, which aborts the program before anything is
 * written.
 */
module WlanCal {
  import opened Machine

  /**
   * memcpy: `src` copied to `dst` from index `at`; every other byte keeps
   * its value.
   */
  method CopyBytes(dst: array<byte>, at: nat, src: seq<byte>)
    requires at + |src| <= dst.Length
    modifies dst
    ensures forall j :: 0 <= j < dst.Length ==> dst[j] == if at <= j < at + |src| then src[j - at] else old(dst[j])
  {
    var k := 0;
    while k < |src|
      invariant 0 <= k <= |src|
      invariant forall j :: 0 <= j < dst.Length ==> dst[j] == if at <= j < at + k then src[j - at] else old(dst[j])
    {
      dst[at + k] := src[k];
      k := k + 1;
    }
  }

  // ---------------------------------------------------------------------
  // set_mac

  /** The block holds seven 32-bit words; words 1 to 6 carry the MAC bytes. */
  const MAC_LEN: nat := 6
  const MAC_BLOCK_LEN: nat := (MAC_LEN + 1) * 4

  /** A 32-bit load on the little-endian target. */
  function LoadLe32(b: seq<byte>): (r: int)
    requires |b| == 4
    ensures 0 <= r < TWO_32
    ensures r % 256 == b[0] as int
  {
    b[0] as int + 0x100 * b[1] as int + 0x1_0000 * b[2] as int + 0x100_0000 * b[3] as int
  }

  /** Word `k` of the payload (`data[k]` with `data` a `uint32_t *`). */
  function Word(payload: seq<byte>, k: nat): int
    requires 4 * k + 4 <= |payload|
  {
    LoadLe32(payload[4 * k .. 4 * k + 4])
  }

  /**
   * The MAC record: byte `i` is word `i + 1` of the block truncated to a
   * `char`, which on the little-endian target is the first byte of that word.
   */
  function MacRecord(payload: seq<byte>): (r: seq<byte>)
    requires |payload| == MAC_BLOCK_LEN
    ensures |r| == MAC_LEN
    ensures forall i :: 0 <= i < MAC_LEN ==> r[i] == payload[4 * (i + 1)]
  {
    seq(MAC_LEN, i requires 0 <= i < MAC_LEN => (Word(payload, i + 1) % 256) as byte)
  }

  /** set_mac: the length check, then the six bytes filled one by one. */
  method SetMac(payload: seq<byte>) returns (r: Option<seq<byte>>)
    ensures r.Some? <==> |payload| == MAC_BLOCK_LEN
    ensures r.Some? ==> r.value == MacRecord(payload)
  {
    if |payload| != MAC_BLOCK_LEN {
      return None;
    }
    var mac := new byte[MAC_LEN];
    var i := 0;
    while i < MAC_LEN
      invariant 0 <= i <= MAC_LEN
      invariant forall j :: 0 <= j < i ==> mac[j] == MacRecord(payload)[j]
    {
      mac[i] := (Word(payload, i + 1) % 256) as byte;
      i := i + 1;
    }
    return Some(mac[..]);
  }

  // ---------------------------------------------------------------------
  // set_iq_values

  /** 13 items of 8 bytes after a 4-byte header; each becomes a 10-byte item. */
  const IQ_BLOCK_LEN: nat := 108
  const IQ_ITEMS: nat := 13
  const IQ_READ_LEN: nat := 8
  const IQ_ITEM_LEN: nat := IQ_READ_LEN + 2
  const IQ_LEN: nat := 130

  /** The loop's trip count `sizeof(iq) / item_len` is the 13 items of the block. */
  lemma IqItemCount()
    ensures IQ_LEN / IQ_ITEM_LEN == IQ_ITEMS && IQ_ITEMS * IQ_ITEM_LEN == IQ_LEN
  {
  }

  /** The first byte of item `i`: 108 for the first item, then 5 more than the item before, as a `char`. */
  function IqPrefix(i: nat): byte {
    ((108 + 5 * i) % 256) as byte
  }

  /** Each prefix is the one before plus 5, as a `char`. */
  lemma IqPrefixStep(i: nat)
    requires i >= 1
    ensures IqPrefix(i) as int == (IqPrefix(i - 1) as int + 5) % 256
  {
    var a := 108 + 5 * (i - 1);
    DivModOf(a, 256, a / 256, a % 256);
    DivModOf(a + 5, 256, (a % 256 + 5) / 256 + a / 256, (a % 256 + 5) % 256);
  }

  /** Item `i` of the IQ record: its prefix, a tab, then bytes `4 + 8i` to `12 + 8i` of the payload. */
  function IqItem(payload: seq<byte>, i: nat): (r: seq<byte>)
    requires |payload| == IQ_BLOCK_LEN && i < IQ_ITEMS
    ensures |r| == IQ_ITEM_LEN
  {
    [IqPrefix(i), 9] + payload[4 + 8 * i .. 4 + 8 * i + IQ_READ_LEN]
  }

  /** Items `from` to 12, in order. */
  function IqItems(payload: seq<byte>, from: nat): (r: seq<byte>)
    requires |payload| == IQ_BLOCK_LEN && from <= IQ_ITEMS
    ensures |r| == 10 * (IQ_ITEMS - from)
    decreases IQ_ITEMS - from
  {
    if from == IQ_ITEMS then [] else IqItem(payload, from) + IqItems(payload, from + 1)
  }

  /** The IQ record set_iq_values writes. */
  function IqRecord(payload: seq<byte>): (r: seq<byte>)
    requires |payload| == IQ_BLOCK_LEN
    ensures |r| == IQ_LEN
  {
    IqItems(payload, 0)
  }

  /** Byte `j` of the IQ record in closed form. */
  function IqByte(payload: seq<byte>, j: nat): byte
    requires |payload| == IQ_BLOCK_LEN && j < IQ_LEN
  {
    var i, k := j / IQ_ITEM_LEN, j % IQ_ITEM_LEN;
    if k == 0 then IqPrefix(i) else if k == 1 then 9 else payload[4 + 8 * i + k - 2]
  }

  /** The closed form, item by item. */
  lemma IqByteOfItem(payload: seq<byte>, i: nat, k: nat)
    requires |payload| == IQ_BLOCK_LEN && i < IQ_ITEMS && k < IQ_ITEM_LEN
    ensures IqByte(payload, 10 * i + k) == IqItem(payload, i)[k]
  {
    DivModOf(10 * i + k, IQ_ITEM_LEN, i, k);
  }

  /** The items from `from`: item `from`, then the items after it. */
  lemma IqItemsSplit(payload: seq<byte>, from: nat)
    requires |payload| == IQ_BLOCK_LEN && from < IQ_ITEMS
    ensures IqItems(payload, from)[..IQ_ITEM_LEN] == IqItem(payload, from)
    ensures IqItems(payload, from)[IQ_ITEM_LEN..] == IqItems(payload, from + 1)
  {
  }

  /** Byte `k` of item `i` is byte `10(i - from) + k` of the items from `from`. */
  lemma {:induction false} IqItemsAt(payload: seq<byte>, from: nat, i: nat, k: nat)
    requires |payload| == IQ_BLOCK_LEN && from <= i < IQ_ITEMS && k < IQ_ITEM_LEN
    ensures IqItems(payload, from)[10 * (i - from) + k] == IqItem(payload, i)[k]
    decreases i - from
  {
    if from < i {
      IqItemsSplit(payload, from);
      IqItemsAt(payload, from + 1, i, k);
      var n := 10 * (i - (from + 1)) + k;
      assert IqItems(payload, from)[10 + n] == IqItems(payload, from)[IQ_ITEM_LEN..][n];
    } else {
      IqItemsSplit(payload, from);
      assert IqItems(payload, from)[k] == IqItems(payload, from)[..IQ_ITEM_LEN][k];
    }
  }

  /**
   * The IQ record byte by byte: item `i` starts with `(108 + 5i) mod 256`,
   * then a tab, then the payload bytes `4 + 8i` to `12 + 8i`.
   */
  lemma IqLayout(payload: seq<byte>)
    requires |payload| == IQ_BLOCK_LEN
    ensures forall j :: 0 <= j < IQ_LEN ==> IqRecord(payload)[j] == IqByte(payload, j)
  {
    forall j | 0 <= j < IQ_LEN
      ensures IqRecord(payload)[j] == IqByte(payload, j)
    {
      IqRecordAt(payload, j / 10, j % 10);
    }
  }

  /** Byte `k` of item `i` is byte `10i + k` of the IQ record. */
  lemma IqRecordAt(payload: seq<byte>, i: nat, k: nat)
    requires |payload| == IQ_BLOCK_LEN && i < IQ_ITEMS && k < IQ_ITEM_LEN
    ensures IqRecord(payload)[10 * i + k] == IqByte(payload, 10 * i + k)
  {
    IqItemsAt(payload, 0, i, k);
    IqByteOfItem(payload, i, k);
  }

  /** A buffer that agrees with the closed form at every byte is the record. */
  lemma IqEqual(buf: seq<byte>, payload: seq<byte>)
    requires |payload| == IQ_BLOCK_LEN && |buf| == IQ_LEN
    requires forall j :: 0 <= j < IQ_LEN ==> buf[j] == IqByte(payload, j)
    ensures buf == IqRecord(payload)
  {
    IqLayout(payload);
    var rec := IqRecord(payload);
    assert forall j :: 0 <= j < |buf| ==> buf[j] == rec[j];
  }

  /** The payload bytes an IQ item carries: the item without its two-byte head. */
  function IqStrip(item: seq<byte>): seq<byte>
    requires |item| == IQ_ITEM_LEN
  {
    item[2..]
  }

  /** The payload bytes an IQ record carries, item by item. */
  function IqData(record: seq<byte>): seq<byte>
    decreases |record|
  {
    if |record| < IQ_ITEM_LEN then [] else IqStrip(record[..IQ_ITEM_LEN]) + IqData(record[IQ_ITEM_LEN..])
  }

  /** Item `i` carries the 8 payload bytes from `4 + 8i`. */
  lemma IqItemData(payload: seq<byte>, i: nat)
    requires |payload| == IQ_BLOCK_LEN && i < IQ_ITEMS
    ensures IqStrip(IqItem(payload, i)) == payload[4 + 8 * i .. 4 + 8 * (i + 1)]
  {
  }

  /** Items from `from` carry exactly the payload from byte `4 + 8 * from` on. */
  lemma {:induction false} IqDataItems(payload: seq<byte>, from: nat)
    requires |payload| == IQ_BLOCK_LEN && from <= IQ_ITEMS
    ensures IqData(IqItems(payload, from)) == payload[4 + 8 * from ..]
    decreases IQ_ITEMS - from
  {
    if from < IQ_ITEMS {
      IqItemsSplit(payload, from);
      IqItemData(payload, from);
      IqDataItems(payload, from + 1);
      assert payload[4 + 8 * from ..]
          == payload[4 + 8 * from .. 4 + 8 * (from + 1)] + payload[4 + 8 * (from + 1) ..];
    }
  }

  /**
   * An IQ record carries the whole payload after its 4-byte header, in
   * order: the reads stay inside the block and end exactly at its last byte.
   */
  lemma IqRoundTrip(payload: seq<byte>)
    requires |payload| == IQ_BLOCK_LEN
    ensures IqData(IqRecord(payload)) == payload[4..]
  {
    IqDataItems(payload, 0);
  }

  /**
   * One pass of set_iq_values' loop: item `i`'s prefix (108, or the prefix
   * of the item before read back plus 5), the tab, and the 8 payload bytes.
   */
  method WriteIqItem(iq: array<byte>, payload: seq<byte>, i: nat)
    requires iq.Length == IQ_LEN && |payload| == IQ_BLOCK_LEN && i < IQ_ITEMS
    requires i > 0 ==> iq[10 * (i - 1)] == IqPrefix(i - 1)
    modifies iq
    ensures forall j :: 0 <= j < IQ_LEN ==>
      iq[j] == if 10 * i <= j < 10 * (i + 1) then IqItem(payload, i)[j - 10 * i] else old(iq[j])
  {
    var readOffset := i * 8 + 4;
    var writeOffset := 10 * i;
    if i == 0 {
      iq[writeOffset] := 108;
    } else {
      IqPrefixStep(i);
      iq[writeOffset] := ((iq[writeOffset - IQ_ITEM_LEN] as int + 5) % 256) as byte;
    }
    iq[writeOffset + 1] := 9;
    CopyBytes(iq, writeOffset + 2, payload[readOffset .. readOffset + IQ_READ_LEN]);
  }

  /** set_iq_values: the length check, then the items one by one. */
  method SetIqValues(payload: seq<byte>) returns (r: Option<seq<byte>>)
    ensures r.Some? <==> |payload| == IQ_BLOCK_LEN
    ensures r.Some? ==> r.value == IqRecord(payload)
  {
    if |payload| != IQ_BLOCK_LEN {
      return None;
    }
    var iq := new byte[IQ_LEN];
    IqItemCount();
    var i := 0;
    while i < IQ_LEN / IQ_ITEM_LEN
      invariant 0 <= i <= IQ_ITEMS
      invariant forall j :: 0 <= j < 10 * i ==> iq[j] == IqByte(payload, j)
    {
      if i > 0 {
        IqByteOfItem(payload, i - 1, 0);
      }
      WriteIqItem(iq, payload, i);
      forall j | 10 * i <= j < 10 * (i + 1)
        ensures iq[j] == IqByte(payload, j)
      {
        IqByteOfItem(payload, i, j - 10 * i);
      }
      i := i + 1;
    }
    IqEqual(iq[..], payload);
    return Some(iq[..]);
  }

  // ---------------------------------------------------------------------
  // set_tx_curve

  /** 13 items of 38 bytes from offset 14; each gets a 4-byte separator after its first two bytes. */
  const TX_BLOCK_LEN: nat := 508
  const TX_ITEMS: nat := 13
  const TX_READ_LEN: nat := 38
  const TX_SEP_LEN: nat := 4
  const TX_ITEM_LEN: nat := TX_SEP_LEN + TX_READ_LEN
  const TX_PREFIX_LEN: nat := 4
  const TX_LEN: nat := 550

  /** The record header `"\3\0\6\0"`. */
  const TX_PREFIX: seq<byte> := [3, 0, 6, 0]

  /** The separator `"\f\0 \2"`. */
  const TX_SEP: seq<byte> := [12, 0, 32, 2]

  /** The loop's trip count `(sizeof(tx_curve) - prefix_len) / item_len` is the 13 items of the block. */
  lemma TxItemCount()
    ensures (TX_LEN - TX_PREFIX_LEN) / TX_ITEM_LEN == TX_ITEMS && TX_PREFIX_LEN + TX_ITEMS * TX_ITEM_LEN == TX_LEN
  {
  }

  /** Item `i` of the TX record: payload bytes `14 + 38i` and `15 + 38i`, the separator, then up to `52 + 38i`. */
  function TxItem(payload: seq<byte>, i: nat): (r: seq<byte>)
    requires |payload| == TX_BLOCK_LEN && i < TX_ITEMS
    ensures |r| == TX_ITEM_LEN
  {
    var src := 38 * i + 14;
    payload[src .. src + 2] + TX_SEP + payload[src + 2 .. src + TX_READ_LEN]
  }

  /** Items `from` to 12, in order. */
  function TxItems(payload: seq<byte>, from: nat): (r: seq<byte>)
    requires |payload| == TX_BLOCK_LEN && from <= TX_ITEMS
    ensures |r| == 42 * (TX_ITEMS - from)
    decreases TX_ITEMS - from
  {
    if from == TX_ITEMS then [] else TxItem(payload, from) + TxItems(payload, from + 1)
  }

  /** The TX curve record set_tx_curve writes: the header, then the 13 items, filling all 550 bytes. */
  function TxRecord(payload: seq<byte>): (r: seq<byte>)
    requires |payload| == TX_BLOCK_LEN
    ensures |r| == TX_LEN
  {
    TX_PREFIX + TxItems(payload, 0)
  }

  /** Byte `j` of the TX record in closed form. */
  function TxByte(payload: seq<byte>, j: nat): byte
    requires |payload| == TX_BLOCK_LEN && j < TX_LEN
  {
    if j < TX_PREFIX_LEN then TX_PREFIX[j]
    else
      var i, k := (j - TX_PREFIX_LEN) / TX_ITEM_LEN, (j - TX_PREFIX_LEN) % TX_ITEM_LEN;
      if k < 2 then payload[38 * i + 14 + k]
      else if k < 2 + TX_SEP_LEN then TX_SEP[k - 2]
      else payload[38 * i + 14 + k - TX_SEP_LEN]
  }

  /** The closed form, item by item. */
  lemma TxByteOfItem(payload: seq<byte>, i: nat, k: nat)
    requires |payload| == TX_BLOCK_LEN && i < TX_ITEMS && k < TX_ITEM_LEN
    ensures TxByte(payload, TX_PREFIX_LEN + 42 * i + k) == TxItem(payload, i)[k]
  {
    DivModOf(42 * i + k, TX_ITEM_LEN, i, k);
  }

  /** The items from `from`: item `from`, then the items after it. */
  lemma TxItemsSplit(payload: seq<byte>, from: nat)
    requires |payload| == TX_BLOCK_LEN && from < TX_ITEMS
    ensures TxItems(payload, from)[..TX_ITEM_LEN] == TxItem(payload, from)
    ensures TxItems(payload, from)[TX_ITEM_LEN..] == TxItems(payload, from + 1)
  {
  }

  /** Byte `k` of item `i` is byte `42(i - from) + k` of the items from `from`. */
  lemma {:induction false} TxItemsAt(payload: seq<byte>, from: nat, i: nat, k: nat)
    requires |payload| == TX_BLOCK_LEN && from <= i < TX_ITEMS && k < TX_ITEM_LEN
    ensures TxItems(payload, from)[42 * (i - from) + k] == TxItem(payload, i)[k]
    decreases i - from
  {
    if from < i {
      TxItemsSplit(payload, from);
      TxItemsAt(payload, from + 1, i, k);
      var n := 42 * (i - (from + 1)) + k;
      assert TxItems(payload, from)[42 + n] == TxItems(payload, from)[TX_ITEM_LEN..][n];
    } else {
      TxItemsSplit(payload, from);
      assert TxItems(payload, from)[k] == TxItems(payload, from)[..TX_ITEM_LEN][k];
    }
  }

  /**
   * The TX record byte by byte: the header 3, 0, 6, 0; then item `i` from
   * byte `4 + 42i`: payload bytes `14 + 38i` and `15 + 38i`, the separator
   * 12, 0, 32, 2, and payload bytes `16 + 38i` to `52 + 38i`.
   */
  lemma TxLayout(payload: seq<byte>)
    requires |payload| == TX_BLOCK_LEN
    ensures forall j :: 0 <= j < TX_LEN ==> TxRecord(payload)[j] == TxByte(payload, j)
  {
    forall j | 0 <= j < TX_LEN
      ensures TxRecord(payload)[j] == TxByte(payload, j)
    {
      if j >= TX_PREFIX_LEN {
        TxRecordAt(payload, (j - 4) / 42, (j - 4) % 42);
      }
    }
  }

  /** Byte `k` of item `i` is byte `4 + 42i + k` of the TX record. */
  lemma TxRecordAt(payload: seq<byte>, i: nat, k: nat)
    requires |payload| == TX_BLOCK_LEN && i < TX_ITEMS && k < TX_ITEM_LEN
    ensures TxRecord(payload)[4 + 42 * i + k] == TxByte(payload, 4 + 42 * i + k)
  {
    TxItemsAt(payload, 0, i, k);
    TxByteOfItem(payload, i, k);
  }

  /** A buffer that agrees with the closed form at every byte is the record. */
  lemma TxEqual(buf: seq<byte>, payload: seq<byte>)
    requires |payload| == TX_BLOCK_LEN && |buf| == TX_LEN
    requires forall j :: 0 <= j < TX_LEN ==> buf[j] == TxByte(payload, j)
    ensures buf == TxRecord(payload)
  {
    TxLayout(payload);
    var rec := TxRecord(payload);
    assert forall j :: 0 <= j < |buf| ==> buf[j] == rec[j];
  }

  /** The payload bytes a TX item carries: the item without its separator. */
  function TxStrip(item: seq<byte>): seq<byte>
    requires |item| == TX_ITEM_LEN
  {
    item[..2] + item[2 + TX_SEP_LEN..]
  }

  /** The payload bytes a run of TX items carries, item by item. */
  function TxData(items: seq<byte>): seq<byte>
    decreases |items|
  {
    if |items| < TX_ITEM_LEN then [] else TxStrip(items[..TX_ITEM_LEN]) + TxData(items[TX_ITEM_LEN..])
  }

  /** Item `i` carries the 38 payload bytes from `14 + 38i`. */
  lemma TxItemData(payload: seq<byte>, i: nat)
    requires |payload| == TX_BLOCK_LEN && i < TX_ITEMS
    ensures TxStrip(TxItem(payload, i)) == payload[38 * i + 14 .. 38 * (i + 1) + 14]
  {
    var src := 38 * i + 14;
    assert payload[src .. src + 38] == payload[src .. src + 2] + payload[src + 2 .. src + 38];
  }

  /** Items from `from` carry exactly the payload from byte `14 + 38 * from` on. */
  lemma {:induction false} TxDataItems(payload: seq<byte>, from: nat)
    requires |payload| == TX_BLOCK_LEN && from <= TX_ITEMS
    ensures TxData(TxItems(payload, from)) == payload[38 * from + 14 ..]
    decreases TX_ITEMS - from
  {
    if from < TX_ITEMS {
      var src := 38 * from + 14;
      TxItemsSplit(payload, from);
      TxItemData(payload, from);
      TxDataItems(payload, from + 1);
      assert payload[src..] == payload[src .. src + 38] + payload[src + 38 ..];
    }
  }

  /**
   * A TX record carries the whole payload from byte 14 on, in order: the
   * reads stay inside the block and end exactly at its last byte.
   */
  lemma TxRoundTrip(payload: seq<byte>)
    requires |payload| == TX_BLOCK_LEN
    ensures TxRecord(payload)[..TX_PREFIX_LEN] == TX_PREFIX
    ensures TxData(TxRecord(payload)[TX_PREFIX_LEN..]) == payload[14..]
  {
    assert TxRecord(payload)[TX_PREFIX_LEN..] == TxItems(payload, 0);
    TxDataItems(payload, 0);
  }

  /** The three copies that write TX item `i`. */
  method WriteTxItem(tx: array<byte>, payload: seq<byte>, i: nat)
    requires tx.Length == TX_LEN && |payload| == TX_BLOCK_LEN && i < TX_ITEMS
    modifies tx
    ensures forall j :: 0 <= j < TX_LEN ==>
      tx[j] == if TX_PREFIX_LEN + 42 * i <= j < TX_PREFIX_LEN + 42 * (i + 1)
               then TxByte(payload, j) else old(tx[j])
  {
    var src := 38 * i + 14;
    var dst := TX_PREFIX_LEN + 42 * i;
    CopyBytes(tx, dst, payload[src .. src + 2]);
    CopyBytes(tx, dst + 2, TX_SEP);
    CopyBytes(tx, dst + 2 + TX_SEP_LEN, payload[src + 2 .. src + TX_READ_LEN]);
    forall j | dst <= j < dst + TX_ITEM_LEN
      ensures tx[j] == TxByte(payload, j)
    {
      TxByteOfItem(payload, i, j - dst);
    }
  }

  /** set_tx_curve: the length check, the header, then the items one by one. */
  method SetTxCurve(payload: seq<byte>) returns (r: Option<seq<byte>>)
    ensures r.Some? <==> |payload| == TX_BLOCK_LEN
    ensures r.Some? ==> r.value == TxRecord(payload)
  {
    if |payload| != TX_BLOCK_LEN {
      return None;
    }
    var tx := new byte[TX_LEN];
    CopyBytes(tx, 0, TX_PREFIX);
    TxItemCount();
    var i := 0;
    while i < (TX_LEN - TX_PREFIX_LEN) / TX_ITEM_LEN
      invariant 0 <= i <= TX_ITEMS
      invariant forall j :: 0 <= j < TX_PREFIX_LEN + 42 * i ==> tx[j] == TxByte(payload, j)
    {
      WriteTxItem(tx, payload, i);
      i := i + 1;
    }
    TxEqual(tx[..], payload);
    return Some(tx[..]);
  }
}
