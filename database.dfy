/** The storage layer of src/model/database.rs: the blob format of a stored
    secret, the read-only queries over a snapshot of the tables, and the
    `Database` connection whose inserts append rows.

    SQLite is modelled by its tables: `Entry(id, group_id, data)`,
    `EntryGroup(id, data)` and `EntryGroupParent(parent_id, child_id)`, each
    a sequence of rows in rowid order, and by `last_insert_rowid`. A panic of
    password-cli (`unwrap`, `expect`, `split_at` past the end) is an `Err`
    here, so that the model says which inputs reach it. */
module Database {
  import opened Wrappers
  import opened Encryption
  import opened Cbor
  import opened Model
  import opened Text

  /** Why a query of password-cli panics. */
  datatype StoreError =
    | NoSuchRow          // query_row found no row with the id
    | BlobTooShort       // split_at(NONCE_SIZE) past the end of the blob
    | DecryptFailed      // Cipher::decrypt refused the ciphertext
    | DecodeFailed       // ciborium::from_reader refused the plaintext
    | NoParentlessGroup  // root_group_id: "there should be a group with no parent"

  // ---------------------------------------------------------------------
  // Blob codec

  /** `encrypt_blob`: the nonce, then the ciphertext. */
  function EncryptBlob(data: Bytes, cipher: Cipher, nonce: Nonce): (blob: Bytes)
    ensures |blob| == NONCE_SIZE + |Encrypt(cipher, nonce, data).ciphertext|
    ensures blob[..NONCE_SIZE] == nonce
    ensures blob[NONCE_SIZE..] == Encrypt(cipher, nonce, data).ciphertext
  {
    var msg := Encrypt(cipher, nonce, data);
    msg.nonce + msg.ciphertext
  }

  /** `decrypt_blob`: the first NONCE_SIZE bytes are the nonce, the rest the
      ciphertext; a shorter blob cannot be split. */
  function DecryptBlob(blob: Bytes, cipher: Cipher): (r: Result<Bytes, StoreError>)
    ensures |blob| < NONCE_SIZE ==> r == Err(BlobTooShort)
    ensures r.Ok? ==> |blob| >= NONCE_SIZE && Decrypt(cipher, blob[NONCE_SIZE..], blob[..NONCE_SIZE]) == Ok(r.value)
    ensures |blob| >= NONCE_SIZE && Decrypt(cipher, blob[NONCE_SIZE..], blob[..NONCE_SIZE]).Ok? ==> r.Ok?
    ensures |blob| >= NONCE_SIZE ==> r != Err(BlobTooShort)
    ensures r.Err? ==> r.error == BlobTooShort || r.error == DecryptFailed
  {
    if |blob| < NONCE_SIZE then Err(BlobTooShort)
    else
      var nonce: Nonce := blob[..NONCE_SIZE];
      match Decrypt(cipher, blob[NONCE_SIZE..], nonce)
      case Ok(p) => Ok(p)
      case Err(_) => Err(DecryptFailed)
  }

  /** A blob sealed under a cipher opens under it to the same bytes. */
  lemma BlobRoundTrip(data: Bytes, cipher: Cipher, nonce: Nonce)
    requires CipherLaws(cipher.aead)
    ensures DecryptBlob(EncryptBlob(data, cipher, nonce), cipher) == Ok(data)
  {
  }

  /** A blob sealed under one key does not open under another. */
  lemma BlobWrongKey(data: Bytes, cipher: Cipher, other: Cipher, nonce: Nonce)
    requires CipherLaws(cipher.aead) && other.aead == cipher.aead && other.key != cipher.key
    ensures DecryptBlob(EncryptBlob(data, cipher, nonce), other) == Err(DecryptFailed)
  {
  }

  /** A blob whose nonce part was replaced does not open. */
  lemma BlobWrongNonce(data: Bytes, cipher: Cipher, nonce: Nonce, other: Nonce)
    requires CipherLaws(cipher.aead) && other != nonce
    ensures DecryptBlob(other + EncryptBlob(data, cipher, nonce)[NONCE_SIZE..], cipher) == Err(DecryptFailed)
  {
    var blob := other + EncryptBlob(data, cipher, nonce)[NONCE_SIZE..];
    assert blob[..NONCE_SIZE] == other;
    assert blob[NONCE_SIZE..] == EncryptBlob(data, cipher, nonce)[NONCE_SIZE..];
  }

  // ---------------------------------------------------------------------
  // Rows

  datatype EntryRow = EntryRow(id: int, groupId: int, data: Bytes)

  /** Group rows hold raw bytes: the one password-cli writes is not sealed. */
  datatype GroupRow = GroupRow(id: int, data: Bytes)

  datatype ParentEdge = ParentEdge(parentId: int, childId: int)

  /** A rowid table lists its rows by ascending, hence distinct, rowid. */
  predicate Ascending(ids: seq<int>) {
    forall i, j :: 0 <= i < j < |ids| ==> ids[i] < ids[j]
  }

  /** The rowid SQLite gives a new row: one past the largest, 1 in an empty table. */
  function NextRowid(ids: seq<int>): (id: int)
    requires Ascending(ids)
    ensures forall i :: 0 <= i < |ids| ==> ids[i] < id
  {
    if ids == [] then 1 else ids[|ids| - 1] + 1
  }

  /** The rowid column of a table, in table order. */
  function EntryIds(rows: seq<EntryRow>): (ids: seq<int>)
    ensures |ids| == |rows| && forall i :: 0 <= i < |rows| ==> ids[i] == rows[i].id
  {
    seq(|rows|, i requires 0 <= i < |rows| => rows[i].id)
  }

  function GroupIds(rows: seq<GroupRow>): (ids: seq<int>)
    ensures |ids| == |rows| && forall i :: 0 <= i < |rows| ==> ids[i] == rows[i].id
  {
    seq(|rows|, i requires 0 <= i < |rows| => rows[i].id)
  }

  /** A row appended under the next rowid keeps the table ascending. */
  lemma AppendEntryRow(rows: seq<EntryRow>, row: EntryRow)
    requires Ascending(EntryIds(rows)) && row.id == NextRowid(EntryIds(rows))
    ensures Ascending(EntryIds(rows + [row]))
    ensures forall i :: 0 <= i < |rows| ==> rows[i].id < row.id
  {
    assert EntryIds(rows + [row]) == EntryIds(rows) + [row.id];
  }

  lemma AppendGroupRow(rows: seq<GroupRow>, row: GroupRow)
    requires Ascending(GroupIds(rows)) && row.id == NextRowid(GroupIds(rows))
    ensures Ascending(GroupIds(rows + [row]))
  {
    assert GroupIds(rows + [row]) == GroupIds(rows) + [row.id];
  }

  /** What `insert_entry` stores for `data`: its CBOR encoding, sealed. */
  function SealEntryData(data: EntryData, cipher: Cipher, cbor: Codec<EntryData>, nonce: Nonce): (blob: Bytes)
    ensures |blob| >= NONCE_SIZE && blob[..NONCE_SIZE] == nonce
    ensures CipherLaws(cipher.aead) && CodecLaws(cbor) ==> OpenEntryData(blob, cipher, cbor) == Ok(data)
  {
    EncryptBlob(cbor.encode(data), cipher, nonce)
  }

  /** What `entry` and `entries` do with a stored blob: open it, then decode it. */
  function OpenEntryData(blob: Bytes, cipher: Cipher, cbor: Codec<EntryData>): (r: Result<EntryData, StoreError>)
    ensures r.Ok? <==> DecryptBlob(blob, cipher).Ok? && cbor.decode(DecryptBlob(blob, cipher).value).Some?
    ensures r.Ok? ==> cbor.decode(DecryptBlob(blob, cipher).value) == Some(r.value)
    ensures DecryptBlob(blob, cipher).Err? ==> r == Err(DecryptBlob(blob, cipher).error)
    ensures DecryptBlob(blob, cipher).Ok? && r.Err? ==> r.error == DecodeFailed
  {
    match DecryptBlob(blob, cipher)
    case Err(e) => Err(e)
    case Ok(plain) =>
      match cbor.decode(plain)
      case Some(d) => Ok(d)
      case None => Err(DecodeFailed)
  }

  // ---------------------------------------------------------------------
  // Queries over a snapshot of the tables

  /** Row `i` is the first row of the table whose id is `rowId`. */
  predicate FirstWithId(rows: seq<EntryRow>, rowId: int, i: int) {
    0 <= i < |rows| && rows[i].id == rowId && forall j :: 0 <= j < i ==> rows[j].id != rowId
  }

  /** `SELECT data FROM Entry WHERE id = ?` through `query_row`: the first row with the id. */
  function FindEntryRow(rows: seq<EntryRow>, rowId: int): (r: Option<EntryRow>)
    ensures r.None? <==> forall i :: 0 <= i < |rows| ==> rows[i].id != rowId
    ensures r.Some? ==> exists i :: FirstWithId(rows, rowId, i) && rows[i] == r.value
    decreases |rows|
  {
    if rows == [] then None
    else if rows[0].id == rowId then Some(rows[0])
    else
      var r := FindEntryRow(rows[1..], rowId);
      assert forall i :: 1 <= i < |rows| ==> rows[i] == rows[1..][i - 1];
      r
  }

  /** `Database::decrypt_blob` on the `data` column of the Entry table. */
  function DecryptEntryRow(rows: seq<EntryRow>, rowId: int, cipher: Cipher): (r: Result<Bytes, StoreError>)
    ensures (forall i :: 0 <= i < |rows| ==> rows[i].id != rowId) <==> r == Err(NoSuchRow)
    ensures forall i :: FirstWithId(rows, rowId, i) ==> r == DecryptBlob(rows[i].data, cipher)
  {
    match FindEntryRow(rows, rowId)
    case None => Err(NoSuchRow)
    case Some(row) => DecryptBlob(row.data, cipher)
  }

  /** `Database::entry`: the row with the id, opened and decoded. */
  function LookupEntry(rows: seq<EntryRow>, rowId: int, cipher: Cipher, cbor: Codec<EntryData>): (r: Result<Entry, StoreError>)
    ensures (forall i :: 0 <= i < |rows| ==> rows[i].id != rowId) <==> r == Err(NoSuchRow)
    ensures r.Ok? ==> r.value.id == rowId
    ensures forall i :: FirstWithId(rows, rowId, i) ==>
              r == match OpenEntryData(rows[i].data, cipher, cbor)
                   case Ok(d) => Ok(Entry(rowId, d))
                   case Err(e) => Err(e)
  {
    match DecryptEntryRow(rows, rowId, cipher)
    case Err(e) => Err(e)
    case Ok(plain) =>
      match cbor.decode(plain)
      case Some(d) => Ok(Entry.New(rowId, d))
      case None => Err(DecodeFailed)
  }

  /** In a table with distinct rowids, a row is the first with its id. */
  lemma RowIsFirstWithId(rows: seq<EntryRow>, i: int)
    requires Ascending(EntryIds(rows)) && 0 <= i < |rows|
    ensures FirstWithId(rows, rows[i].id, i)
  {
  }

  /** Appending a row leaves the lookup of every other id unchanged. */
  lemma {:induction false} LookupEntryAppendOther(rows: seq<EntryRow>, row: EntryRow, rowId: int, cipher: Cipher, cbor: Codec<EntryData>)
    requires rowId != row.id
    ensures LookupEntry(rows + [row], rowId, cipher, cbor) == LookupEntry(rows, rowId, cipher, cbor)
  {
    FindEntryRowAppendOther(rows, row, rowId);
  }

  lemma {:induction false} FindEntryRowAppendOther(rows: seq<EntryRow>, row: EntryRow, rowId: int)
    requires rowId != row.id
    ensures FindEntryRow(rows + [row], rowId) == FindEntryRow(rows, rowId)
    decreases |rows|
  {
    if rows == [] {
      assert rows + [row] == [row];
    } else {
      assert (rows + [row])[1..] == rows[1..] + [row];
      FindEntryRowAppendOther(rows[1..], row, rowId);
    }
  }

  /** The name test of `entries`: no filter keeps everything, a filter keeps
      the names that contain it. */
  predicate KeepsName(nameFilter: Option<string>, data: EntryData) {
    match nameFilter
    case None => true
    case Some(f) => Contains(data.Name(), f)
  }

  /** `Database::entries`: every row is opened and decoded, in table order,
      before its name is tested; the first row that fails makes the whole
      query fail, whether or not the filter would have kept it. */
  function ListEntries(rows: seq<EntryRow>, nameFilter: Option<string>, cipher: Cipher, cbor: Codec<EntryData>): (r: Result<seq<Entry>, StoreError>)
    ensures r.Ok? <==> forall i :: 0 <= i < |rows| ==> OpenEntryData(rows[i].data, cipher, cbor).Ok?
    ensures r.Err? ==> exists i :: 0 <= i < |rows| && OpenEntryData(rows[i].data, cipher, cbor) == Err(r.error)
    ensures r.Ok? ==> |r.value| <= |rows|
    ensures r.Ok? && nameFilter.None? ==>
      && |r.value| == |rows|
      && forall i :: 0 <= i < |rows| ==> r.value[i] == Entry(rows[i].id, OpenEntryData(rows[i].data, cipher, cbor).value)
    decreases |rows|
  {
    if rows == [] then Ok([])
    else
      assert forall i :: 1 <= i < |rows| ==> rows[i] == rows[1..][i - 1];
      match OpenEntryData(rows[0].data, cipher, cbor)
      case Err(e) => Err(e)
      case Ok(d) =>
        match ListEntries(rows[1..], nameFilter, cipher, cbor)
        case Err(e) => Err(e)
        case Ok(rest) =>
          Ok((if KeepsName(nameFilter, d) then [Entry.New(rows[0].id, d)] else []) + rest)
  }

  /** The entries whose name contains `f`, in their order. */
  function FilterByName(es: seq<Entry>, f: string): (r: seq<Entry>)
    ensures forall e :: e in r <==> e in es && Contains(e.data.Name(), f)
    ensures IsSubsequence(r, es)
    ensures forall x :: multiset(r)[x] == if Contains(x.data.Name(), f) then multiset(es)[x] else 0
    decreases |es|
  {
    if es == [] then []
    else
      var rest := FilterByName(es[1..], f);
      assert multiset(es) == multiset{es[0]} + multiset(es[1..]) by {
        assert es == [es[0]] + es[1..];
      }
      if Contains(es[0].data.Name(), f) then
        assert multiset([es[0]] + rest) == multiset{es[0]} + multiset(rest);
        [es[0]] + rest
      else rest
  }

  /** `a` is `b` with some elements left out, the others kept in order. */
  predicate IsSubsequence<T(==)>(a: seq<T>, b: seq<T>)
    decreases |b|
  {
    a == [] || (b != [] && ((a[0] == b[0] && IsSubsequence(a[1..], b[1..])) || IsSubsequence(a, b[1..])))
  }

  /** A name filter selects, from the unfiltered result, exactly the entries
      whose name contains it, in table order. */
  lemma {:induction false} ListEntriesFiltered(rows: seq<EntryRow>, f: string, cipher: Cipher, cbor: Codec<EntryData>)
    ensures ListEntries(rows, Some(f), cipher, cbor)
         == match ListEntries(rows, None, cipher, cbor)
            case Ok(es) => Ok(FilterByName(es, f))
            case Err(e) => Err(e)
    decreases |rows|
  {
    if rows != [] {
      ListEntriesFiltered(rows[1..], f, cipher, cbor);
      match OpenEntryData(rows[0].data, cipher, cbor)
      case Err(_) =>
      case Ok(d) =>
        match ListEntries(rows[1..], None, cipher, cbor)
        case Err(_) =>
        case Ok(rest) =>
          var e := Entry.New(rows[0].id, d);
          var es := [e] + rest;
          assert ListEntries(rows, None, cipher, cbor) == Ok(es);
          assert es[0] == e && es[1..] == rest;
          assert ListEntries(rows[1..], Some(f), cipher, cbor) == Ok(FilterByName(rest, f));
          assert KeepsName(Some(f), d) == Contains(e.data.Name(), f);
          var kept := if KeepsName(Some(f), d) then [e] else [];
          assert ListEntries(rows, Some(f), cipher, cbor) == Ok(kept + FilterByName(rest, f));
          assert FilterByName(es, f) == kept + FilterByName(rest, f);
    }
  }

  /** The empty filter keeps every entry. */
  lemma {:induction false} FilterByEmptyName(es: seq<Entry>)
    ensures FilterByName(es, "") == es
    decreases |es|
  {
    if es != [] {
      FilterByEmptyName(es[1..]);
      assert [es[0]] + es[1..] == es;
    }
  }

  /** After a sealed row is appended, the unfiltered listing gains exactly
      that entry at its end. */
  lemma {:induction false} ListEntriesAppend(rows: seq<EntryRow>, id: int, groupId: int, data: EntryData,
                                             cipher: Cipher, cbor: Codec<EntryData>, nonce: Nonce)
    requires CipherLaws(cipher.aead) && CodecLaws(cbor)
    requires ListEntries(rows, None, cipher, cbor).Ok?
    ensures ListEntries(rows + [EntryRow(id, groupId, SealEntryData(data, cipher, cbor, nonce))], None, cipher, cbor)
         == Ok(ListEntries(rows, None, cipher, cbor).value + [Entry(id, data)])
    decreases |rows|
  {
    var row := EntryRow(id, groupId, SealEntryData(data, cipher, cbor, nonce));
    if rows == [] {
      assert rows + [row] == [row];
      assert [row][1..] == [];
      assert ListEntries([], None, cipher, cbor) == Ok([]);
      assert OpenEntryData(row.data, cipher, cbor) == Ok(data);
      assert ListEntries([row], None, cipher, cbor) == Ok([Entry.New(id, data)] + []);
      assert [Entry.New(id, data)] + [] == ListEntries(rows, None, cipher, cbor).value + [Entry(id, data)];
    } else {
      assert (rows + [row])[0] == rows[0];
      assert (rows + [row])[1..] == rows[1..] + [row];
      ListEntriesAppend(rows[1..], id, groupId, data, cipher, cbor, nonce);
      var d0 := OpenEntryData(rows[0].data, cipher, cbor).value;
      var tail := ListEntries(rows[1..], None, cipher, cbor).value;
      assert ListEntries(rows, None, cipher, cbor) == Ok([Entry.New(rows[0].id, d0)] + tail);
      assert ListEntries(rows + [row], None, cipher, cbor)
          == Ok([Entry.New(rows[0].id, d0)] + (tail + [Entry(id, data)]));
      assert [Entry.New(rows[0].id, d0)] + (tail + [Entry(id, data)])
          == ([Entry.New(rows[0].id, d0)] + tail) + [Entry(id, data)];
    }
  }

  /** Every entry `entries(None)` lists is what `entry` returns for its id. */
  lemma LookupAgreesWithListing(rows: seq<EntryRow>, cipher: Cipher, cbor: Codec<EntryData>, k: int)
    requires Ascending(EntryIds(rows))
    requires ListEntries(rows, None, cipher, cbor).Ok?
    requires 0 <= k < |ListEntries(rows, None, cipher, cbor).value|
    ensures LookupEntry(rows, ListEntries(rows, None, cipher, cbor).value[k].id, cipher, cbor)
         == Ok(ListEntries(rows, None, cipher, cbor).value[k])
  {
    RowIsFirstWithId(rows, k);
  }

  /** Some parent edge names `id` as its child. */
  predicate IsChild(edges: seq<ParentEdge>, id: int) {
    exists e :: e in edges && e.childId == id
  }

  /** `Database::root_group_id`: the first group, in table order, that no
      parent edge names as a child; none is a panic. */
  function FindRootGroup(groups: seq<GroupRow>, edges: seq<ParentEdge>): (r: Result<int, StoreError>)
    ensures r.Ok? ==> exists i :: 0 <= i < |groups| && groups[i].id == r.value && !IsChild(edges, groups[i].id)
                                  && forall j :: 0 <= j < i ==> IsChild(edges, groups[j].id)
    ensures r.Err? <==> forall i :: 0 <= i < |groups| ==> IsChild(edges, groups[i].id)
    ensures r.Err? ==> r.error == NoParentlessGroup
    decreases |groups|
  {
    if groups == [] then Err(NoParentlessGroup)
    else if !IsChild(edges, groups[0].id) then Ok(groups[0].id)
    else
      assert forall i :: 1 <= i < |groups| ==> groups[i] == groups[1..][i - 1];
      FindRootGroup(groups[1..], edges)
  }

  // ---------------------------------------------------------------------
  // The connection

  /** The raw bytes `init_test_tables` stores for the root group. */
  const TEST_ROOT_GROUP_DATA: Bytes :=
    [116, 101, 115, 116, 32, 114, 111, 111, 116, 32, 103, 114, 111, 117, 112, 32, 100, 97, 116, 97]

  /** The entry `init_test_tables` inserts. */
  const TEST_ENTRY: EntryData := EntryData.New("abcdef", "fghijkl", "password")

  /** `Database`: an open connection and the cipher it seals with. */
  class Database {
    const cipher: Cipher
    const cbor: Codec<EntryData>
    var entryTable: seq<EntryRow>
    var groupTable: seq<GroupRow>
    var parentTable: seq<ParentEdge>
    var lastInsertRowid: int

    ghost predicate Valid()
      reads this
    {
      Ascending(EntryIds(entryTable)) && Ascending(GroupIds(groupTable))
    }

    /** A connection to a file holding the given tables; `last_insert_rowid`
        is 0 until the connection inserts a row. */
    constructor Open(cipher: Cipher, cbor: Codec<EntryData>,
                     entries: seq<EntryRow>, groups: seq<GroupRow>, edges: seq<ParentEdge>)
      requires Ascending(EntryIds(entries)) && Ascending(GroupIds(groups))
      ensures Valid()
      ensures this.cipher == cipher && this.cbor == cbor
      ensures entryTable == entries && groupTable == groups && parentTable == edges
      ensures lastInsertRowid == 0
    {
      this.cipher := cipher;
      this.cbor := cbor;
      entryTable := entries;
      groupTable := groups;
      parentTable := edges;
      lastInsertRowid := 0;
    }

    /** `root_group_id` */
    function RootGroupId(): (r: Result<int, StoreError>)
      reads this
      ensures r.Ok? ==> exists g :: g in groupTable && g.id == r.value && !IsChild(parentTable, r.value)
      ensures r.Err? <==> forall g :: g in groupTable ==> IsChild(parentTable, g.id)
    {
      FindRootGroup(groupTable, parentTable)
    }

    /** `entry` */
    function EntryById(rowId: int): (r: Result<Entry, StoreError>)
      reads this
      ensures r == Err(NoSuchRow) <==> forall row :: row in entryTable ==> row.id != rowId
      ensures r.Ok? ==> r.value.id == rowId
      ensures Valid() ==> forall i :: 0 <= i < |entryTable| && entryTable[i].id == rowId ==>
                r == match OpenEntryData(entryTable[i].data, cipher, cbor)
                     case Ok(d) => Ok(Entry(rowId, d))
                     case Err(e) => Err(e)
    {
      LookupEntry(entryTable, rowId, cipher, cbor)
    }

    /** `entries` */
    function Entries(nameFilter: Option<string>): (r: Result<seq<Entry>, StoreError>)
      reads this
      ensures r.Ok? <==> forall row :: row in entryTable ==> OpenEntryData(row.data, cipher, cbor).Ok?
      ensures r.Ok? && nameFilter.None? ==>
                && |r.value| == |entryTable|
                && forall i :: 0 <= i < |entryTable| ==>
                     r.value[i] == Entry(entryTable[i].id, OpenEntryData(entryTable[i].data, cipher, cbor).value)
      ensures nameFilter.Some? ==>
                r == match ListEntries(entryTable, None, cipher, cbor)
                     case Ok(es) => Ok(FilterByName(es, nameFilter.value))
                     case Err(e) => Err(e)
    {
      if nameFilter.Some? then
        ListEntriesFiltered(entryTable, nameFilter.value, cipher, cbor);
        ListEntries(entryTable, nameFilter, cipher, cbor)
      else ListEntries(entryTable, nameFilter, cipher, cbor)
    }

    /** `insert_entry`: one sealed row appended under a fresh rowid, which is
        returned; the nonce stands for the one the cipher draws. */
    method InsertEntry(groupId: int, entry: EntryData, nonce: Nonce) returns (id: int)
      requires Valid()
      modifies this
      ensures Valid()
      ensures id == NextRowid(EntryIds(old(entryTable)))
      ensures forall i :: 0 <= i < |old(entryTable)| ==> old(entryTable)[i].id < id
      ensures entryTable == old(entryTable) + [EntryRow(id, groupId, SealEntryData(entry, cipher, cbor, nonce))]
      ensures lastInsertRowid == id
      ensures groupTable == old(groupTable) && parentTable == old(parentTable)
      ensures CipherLaws(cipher.aead) && CodecLaws(cbor) ==> EntryById(id) == Ok(Entry.New(id, entry))
      ensures forall other :: other != id ==> EntryById(other) == old(EntryById(other))
      ensures CipherLaws(cipher.aead) && CodecLaws(cbor) && old(Entries(None)).Ok? ==>
                Entries(None) == Ok(old(Entries(None)).value + [Entry.New(id, entry)])
    {
      var blob := SealEntryData(entry, cipher, cbor, nonce);
      var newId := NextRowid(EntryIds(entryTable));
      var row := EntryRow(newId, groupId, blob);
      ghost var before := entryTable;
      entryTable := entryTable + [row];
      lastInsertRowid := newId;
      id := lastInsertRowid;

      AppendEntryRow(before, row);
      assert entryTable[|before|] == row;
      RowIsFirstWithId(entryTable, |before|);
      if CipherLaws(cipher.aead) && CodecLaws(cbor) {
        if ListEntries(before, None, cipher, cbor).Ok? {
          ListEntriesAppend(before, id, groupId, entry, cipher, cbor, nonce);
        }
      }
      forall other | other != id
        ensures LookupEntry(entryTable, other, cipher, cbor) == LookupEntry(before, other, cipher, cbor)
      {
        LookupEntryAppendOther(before, row, other, cipher, cbor);
      }
    }

    /** `init_test_tables` after the creation script has run: a root group
        whose data is raw bytes, one entry in it, and the entry read back. */
    method InitTestTables(nonce: Nonce) returns (readBack: Result<Entry, StoreError>)
      requires Valid()
      modifies this
      ensures Valid()
      ensures groupTable == old(groupTable) + [GroupRow(NextRowid(GroupIds(old(groupTable))), TEST_ROOT_GROUP_DATA)]
      ensures entryTable == old(entryTable) + [EntryRow(NextRowid(EntryIds(old(entryTable))), NextRowid(GroupIds(old(groupTable))),
                                                         SealEntryData(TEST_ENTRY, cipher, cbor, nonce))]
      ensures parentTable == old(parentTable)
      ensures lastInsertRowid == NextRowid(EntryIds(old(entryTable)))
      ensures CipherLaws(cipher.aead) && CodecLaws(cbor) ==> readBack == Ok(Entry(NextRowid(EntryIds(old(entryTable))), TEST_ENTRY))
    {
      var groupId := NextRowid(GroupIds(groupTable));
      AppendGroupRow(groupTable, GroupRow(groupId, TEST_ROOT_GROUP_DATA));
      groupTable := groupTable + [GroupRow(groupId, TEST_ROOT_GROUP_DATA)];
      lastInsertRowid := groupId;
      groupId := lastInsertRowid;

      var entryId := InsertEntry(groupId, TEST_ENTRY, nonce);
      readBack := EntryById(entryId);
    }
  }
}
