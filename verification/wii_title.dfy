/** Title information of the running Wii channel (wii/title.c): whether a
    title is installed, the vWii test, the ms-id digit of the device
    certificate, and the owner id looked up in `/sys/uid.sys`. The IOS
    calls (ES, ISFS) are parameters: their return codes and the bytes they
    deliver. */
module WiiTitle {
  import opened Wrappers
  import opened Machine
  import opened Text

  // ------------------------------------------------------------ titles

  /** `title_is_installed`, given the return code and the (unsigned) content
      count of `ES_GetTitleContentsCount`: a failed query means the title
      was never installed, a zero count that it was deleted. */
  function TitleIsInstalled(ret: int, contents: nat): (r: bool)
    requires contents < U32_LIMIT
    ensures ret < 0 ==> !r
    ensures ret >= 0 ==> (r <==> contents != 0)
  {
    if ret < 0 then false
    else if contents <= 0 then false
    else true
  }

  /** The Wii System Menu title that only a vWii has installed. */
  const TITLEID_200: nat := 0x0000_0001_0000_0200

  /** The content-count query for every title: a return code and a count. */
  type Query = nat -> (int, nat)

  /** `is_vwii`. */
  function IsVwii(query: Query): (r: bool)
    requires query(TITLEID_200).1 < U32_LIMIT
    ensures r <==> query(TITLEID_200).0 >= 0 && query(TITLEID_200).1 > 0
  {
    TitleIsInstalled(query(TITLEID_200).0, query(TITLEID_200).1)
  }

  /** The vWii test depends on title 1-512 alone. */
  lemma IsVwiiAsksOneTitle(q1: Query, q2: Query)
    requires q1(TITLEID_200) == q2(TITLEID_200) && q1(TITLEID_200).1 < U32_LIMIT
    ensures IsVwii(q1) == IsVwii(q2)
  {
  }

  // ------------------------------------------------------------- ms-id

  const CERT_SIZE: nat := 0x1000
  const MS_ID_AT: nat := 0x99

  /** `title_get_msid`: when the device certificate is read into the 4 KiB
      buffer, the byte at 0x99 less `'0'`, as an unsigned 32-bit value;
      otherwise `ms_id` keeps its value. */
  function MsId(prev: nat, cert: Option<seq<nat>>): (r: nat)
    requires cert.Some? ==> |cert.value| == CERT_SIZE && cert.value[MS_ID_AT] < U8_LIMIT
    ensures cert.None? ==> r == prev
    ensures r < U32_LIMIT || (cert.None? && r == prev)
    ensures cert.Some? && cert.value[MS_ID_AT] >= 48 ==> r == cert.value[MS_ID_AT] - 48
    ensures cert.Some? && cert.value[MS_ID_AT] < 48 ==> r == U32_LIMIT + cert.value[MS_ID_AT] - 48
  {
    match cert
    case None => prev
    case Some(buf) => U32(buf[MS_ID_AT] as int - 48)
  }

  datatype CertKind = Dpki | Retail | UnknownKind

  /** How `title_get_msid` reads the ms-id: 3 on a development unit, 2 on
      a retail unit. */
  function Kind(msId: nat): (k: CertKind)
    ensures k == Dpki <==> msId == 3
    ensures k == Retail <==> msId == 2
  {
    if msId == 3 then Dpki else if msId == 2 then Retail else UnknownKind
  }

  /** A certificate reads as a development unit exactly when its ms-id byte
      is the digit 3, and as retail exactly when it is the digit 2: no other
      byte wraps onto those values. */
  lemma KindOfDigit(prev: nat, cert: seq<nat>)
    requires |cert| == CERT_SIZE && cert[MS_ID_AT] < U8_LIMIT
    ensures Kind(MsId(prev, Some(cert))) == Dpki <==> cert[MS_ID_AT] == '3' as nat
    ensures Kind(MsId(prev, Some(cert))) == Retail <==> cert[MS_ID_AT] == '2' as nat
    ensures '0' as nat <= cert[MS_ID_AT] <= '9' as nat ==>
              MsId(prev, Some(cert)) == DigitValue(cert[MS_ID_AT] as char)
  {
  }

  // ----------------------------------------------------------- uid.sys

  type Byte = b: nat | b < 0x100

  /** Byte `i` of the buffer `get_uid` reads; past the file's length the
      record loop reads whatever follows the allocation (`beyond`). */
  function ByteAt(file: seq<Byte>, i: nat, beyond: nat -> Byte): (b: Byte)
    ensures i < |file| ==> b == file[i]
  {
    if i < |file| then file[i] else beyond(i)
  }

  /** A big-endian unsigned value (the PowerPC byte order of `memcpy` into
      a `u64` or `u32`). */
  function FromBytes(bs: seq<Byte>): nat
  {
    if |bs| == 0 then 0 else FromBytes(bs[..|bs| - 1]) * 256 + bs[|bs| - 1]
  }

  /** The `n` bytes at `at` as the loop's `memcpy` sees them. */
  function Read(file: seq<Byte>, at: nat, n: nat, beyond: nat -> Byte): (r: seq<Byte>)
    ensures |r| == n
    ensures at + n <= |file| ==> r == file[at..at + n]
  {
    if n == 0 then []
    else
      var r := Read(file, at, n - 1, beyond) + [ByteAt(file, at + n - 1, beyond)];
      assert at + n <= |file| ==> file[at..at + n] == file[at..at + n - 1] + [file[at + n - 1]];
      r
  }

  /** The scan steps `id` by 12 while below the file length. */
  function NumRecords(file: seq<Byte>): nat { (|file| + 11) / 12 }

  function TidAt(file: seq<Byte>, k: nat, beyond: nat -> Byte): nat
  {
    FromBytes(Read(file, 12 * k, 8, beyond))
  }

  /** The owner id stored after record `k`'s title id. */
  function OwnerAt(file: seq<Byte>, k: nat, beyond: nat -> Byte): nat
  {
    FromBytes(Read(file, 12 * k + 8, 4, beyond))
  }

  /** The title id of every record the scan visits. */
  function Tids(file: seq<Byte>, beyond: nat -> Byte): (r: seq<nat>)
    ensures |r| == NumRecords(file)
    ensures forall k :: 0 <= k < |r| ==> r[k] == TidAt(file, k, beyond)
  {
    seq(NumRecords(file), k requires 0 <= k < NumRecords(file) => TidAt(file, k, beyond))
  }

  /** The owner id of the first record for `titleId`, if there is one. */
  function FindOwner(file: seq<Byte>, titleId: nat, beyond: nat -> Byte): Option<nat>
  {
    match IndexOf(Tids(file, beyond), titleId)
    case Some(k) => Some(OwnerAt(file, k, beyond))
    case None => None
  }

  /** `get_uid`: when `/sys/uid.sys` opens, its 12-byte records (record
      `k` at byte `id = 12 * k`) are scanned in order and the first whose title id is `titleId` supplies the
      owner id; with no such record, or no file, `ownerID` is kept. */
  method GetUid(owner: nat, file: Option<seq<Byte>>, titleId: nat, beyond: nat -> Byte) returns (r: nat)
    ensures file.None? ==> r == owner
    ensures file.Some? ==> r == (match FindOwner(file.value, titleId, beyond)
                                 case Some(u) => u
                                 case None => owner)
  {
    r := owner;
    if file.None? {
      return;
    }
    var f := file.value;
    ghost var tids := Tids(f, beyond);
    var k := 0;
    while 12 * k < |f|
      invariant k <= NumRecords(f)
      invariant forall j :: 0 <= j < k ==> tids[j] != titleId
      decreases |f| - 12 * k
    {
      var cur := TidAt(f, k, beyond);
      if cur == titleId {
        FirstIndex(tids, titleId, k);
        r := OwnerAt(f, k, beyond);
        return;
      }
      k := k + 1;
    }
    assert titleId !in tids;
  }

  /** The first position holding `x` is the one `IndexOf` finds. */
  lemma FirstIndex(xs: seq<nat>, x: nat, k: nat)
    requires k < |xs| && xs[k] == x && forall j :: 0 <= j < k ==> xs[j] != x
    ensures IndexOf(xs, x) == Some(k)
  {
  }

  /** A `uid.sys` entry: a 64-bit title id and a 32-bit owner id. */
  datatype Entry = Entry(tid: nat, uid: nat)

  predicate EntryOk(e: Entry) { e.tid < Pow256(8) && e.uid < Pow256(4) }

  function Pow256(n: nat): (r: nat)
    ensures r > 0
  {
    if n == 0 then 1 else 256 * Pow256(n - 1)
  }

  /** `n` big-endian bytes of `x`. */
  function ToBytes(x: nat, n: nat): (r: seq<Byte>)
    ensures |r| == n
  {
    if n == 0 then [] else ToBytes(x / 256, n - 1) + [x % 256]
  }

  lemma {:induction false} FromToBytes(x: nat, n: nat)
    requires x < Pow256(n)
    ensures FromBytes(ToBytes(x, n)) == x
  {
    if n > 0 {
      var bs := ToBytes(x, n);
      assert bs[..n - 1] == ToBytes(x / 256, n - 1);
      HighBytesBound(x, n);
      FromToBytes(x / 256, n - 1);
      assert FromBytes(bs) == (x / 256) * 256 + x % 256;
    }
  }

  /** Dropping the low byte of an `n`-byte value leaves an `n - 1`-byte
      value. */
  lemma HighBytesBound(x: nat, n: nat)
    requires n > 0 && x < Pow256(n)
    ensures x / 256 < Pow256(n - 1)
  {
    var p := Pow256(n - 1);
    assert 256 * (x / 256) <= x < 256 * p;
  }

  /** The file a list of entries is stored as. */
  function Encode(es: seq<Entry>): (r: seq<Byte>)
    ensures |r| == 12 * |es|
  {
    if |es| == 0 then [] else ToBytes(es[0].tid, 8) + ToBytes(es[0].uid, 4) + Encode(es[1..])
  }

  lemma {:induction false} EncodeFrom(es: seq<Entry>, k: nat)
    requires k <= |es|
    ensures Encode(es)[12 * k..] == Encode(es[k..])
  {
    if k > 0 {
      EncodeFrom(es[1..], k - 1);
      assert es[1..][k - 1..] == es[k..];
    }
  }

  /** The first record of an encoded file. */
  lemma EncodeHead(es: seq<Entry>)
    requires |es| > 0
    ensures Encode(es)[..8] == ToBytes(es[0].tid, 8)
    ensures Encode(es)[8..12] == ToBytes(es[0].uid, 4)
  {
    var a, b := ToBytes(es[0].tid, 8), ToBytes(es[0].uid, 4);
    var f := Encode(es);
    assert f == a + b + Encode(es[1..]);
    assert f[..8] == a;
    assert f[8..12] == b;
  }

  /** The twelve bytes of record `k` of an encoded file. */
  lemma {:induction false} RecordBytes(es: seq<Entry>, k: nat)
    requires k < |es|
    ensures Encode(es)[12 * k..12 * k + 8] == ToBytes(es[k].tid, 8)
    ensures Encode(es)[12 * k + 8..12 * k + 12] == ToBytes(es[k].uid, 4)
  {
    var f := Encode(es);
    var at := 12 * k;
    assert at + 12 <= |f|;
    EncodeFrom(es, k);
    var rest := es[k..];
    EncodeHead(rest);
    var tail := f[at..];
    assert tail == Encode(rest);
    assert rest[0] == es[k];
    assert f[at..at + 8] == tail[..8];
    assert f[at + 8..at + 12] == tail[8..12];
  }

  /** Record `k` of an encoded file holds entry `k`. */
  lemma EncodedRecord(es: seq<Entry>, k: nat, beyond: nat -> Byte)
    requires k < |es| && EntryOk(es[k])
    ensures TidAt(Encode(es), k, beyond) == es[k].tid
    ensures OwnerAt(Encode(es), k, beyond) == es[k].uid
  {
    RecordBytes(es, k);
    FromToBytes(es[k].tid, 8);
    FromToBytes(es[k].uid, 4);
  }

  /** The title ids of an entry list, in order. */
  function TitleIds(es: seq<Entry>): (r: seq<nat>)
    ensures |r| == |es| && forall k :: 0 <= k < |es| ==> r[k] == es[k].tid
  {
    seq(|es|, k requires 0 <= k < |es| => es[k].tid)
  }

  /** Looking up a title in a stored entry list finds the owner id of the
      first entry for that title, and nothing when the title is absent. */
  lemma FindOwnerInTable(es: seq<Entry>, titleId: nat, beyond: nat -> Byte)
    requires forall k :: 0 <= k < |es| ==> EntryOk(es[k])
    ensures FindOwner(Encode(es), titleId, beyond) ==
              (match IndexOf(TitleIds(es), titleId)
               case Some(k) => Some(es[k].uid)
               case None => None)
  {
    var tids := TitleIds(es);
    var f := Encode(es);
    assert Tids(f, beyond) == tids by {
      assert NumRecords(f) == |es|;
      forall k | 0 <= k < |es| ensures TidAt(f, k, beyond) == tids[k] {
        EncodedRecord(es, k, beyond);
      }
    }
    match IndexOf(tids, titleId)
    case Some(k) =>
      EncodedRecord(es, k, beyond);
      assert FindOwner(f, titleId, beyond) == Some(OwnerAt(f, k, beyond));
    case None =>
      assert FindOwner(f, titleId, beyond) == None;
  }
}
