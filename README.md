# password-cli: a Dafny model of the encrypted store and its command-line rules

password-cli keeps a user's password entries in a SQLite file. Each entry's
data (name, username, password) is serialised to CBOR and then sealed with
AES-256-GCM under a key derived from the user's credentials. The stored blob
is the 12-byte nonce followed by the ciphertext. This project models:

- the record types (`Entry`, `EntryData`, `EntryGroup`, `EntryGroupData`) — `model.dfy`;
- the cipher, seen as an opaque authenticated cipher. The only hypothesis
  about it (`CipherLaws`) is what the repository's own cipher tests assert:
  round-trip, and failure under another nonce or another key — `encryption.dfy`.
  A toy scheme shows that the hypothesis can be met;
- the CBOR codec, seen as an opaque encoder/decoder. The hypothesis about it
  (`CodecLaws`) is the round-trip — `cbor.dfy`;
- the storage layer (`database.dfy`):
  - the blob framing `encrypt_blob` / `decrypt_blob`;
  - the read-only queries `entry`, `entries` and `root_group_id`, each over
    a snapshot of the tables;
  - the `Database` connection as a class. Its tables are sequence fields and
    `last_insert_rowid` is an integer field. `insert_entry` and
    `init_test_tables` append rows to those fields;
- the string rules that `run` in src/cli.rs applies (`cli.dfy`):
  - reading the credentials file;
  - the database path;
  - the parent-group prompt and the name prompt;
  - the `--all` flag merge;
  - the layout of `get` output lines.

  These rules rely on faithful models of the Rust standard-library
  operations they use: `str::contains`, `str::trim` and `str::lines`
  (`text.dfy`), and `parse::<i64>` and `{}` formatting of an `i64`
  (`decimal.dfy`).

Every panic of password-cli is an `Err` value, so each contract can say
which inputs reach it. This covers `unwrap`, `expect`, `split_at` past the
end and `todo!`. The errors are `Database.StoreError` and `Cli.CliError`.
password-cli draws each nonce from the operating system's random source;
here the nonce is a parameter. The environment variables and files it
reads are parameters too (`DB_DIR`, `DB_SUFFIX`, the contents of
the credentials file, a line typed at a prompt).

The Rust code behaves as follows, and the model follows it:

- `root_group_id` is the first group that no parent edge names as a child,
  found by a query. It is not a constant.
- `entries` takes only a name filter. It has no parent-group filter.
- There is no challenge or metadata record.
- Inserting an entry does not check that its group exists.
- The root group that `init_test_tables` writes holds raw bytes, not a sealed blob.
- A blob shorter than the nonce panics in `split_at`; it is not reported as
  a typed error.
- A failed decryption or decoding panics. It does not return an error to
  the caller.

SQLite gives a new row the rowid one past the largest rowid in the table,
or 1 in an empty table. The model keeps each table in ascending rowid order
(`Database.Valid`). It assumes that a full-table scan returns rows in that
order.

## Model

| member | source | states |
|---|---|---|
| Encryption.CipherLawsSatisfiable | src/encryption.rs:173-209 | the three properties the cipher tests assert (round-trip, wrong nonce fails, wrong key fails) hold together for some cipher, so the hypothesis is consistent |
| Cbor.CodecLawsSatisfiable | src/model/database.rs:64-70 | some codec for entry data meets the round-trip law, so the codec hypothesis is consistent |
| Encryption.Encrypt | src/encryption.rs:92-97 | the message carries the given nonce, and under the cipher laws decrypting its ciphertext with that nonce gives the plaintext back |
| Encryption.Decrypt | src/encryption.rs:99-107 | decryption succeeds exactly when the cipher accepts the ciphertext under the key and nonce, and then gives the cipher's plaintext; nothing partial is returned |
| Encryption.DecryptOtherNonce | src/encryption.rs:186-195 | under the cipher laws, a message does not decrypt under a nonce other than its own |
| Encryption.DecryptOtherKey | src/encryption.rs:197-209 | under the cipher laws, a message does not decrypt under a key other than its own |
| Model.EntryGroup.New | src/model/mod.rs:10-17 | the group keeps its id, and `data()` returns the data it was built with |
| Model.EntryGroupData.New | src/model/mod.rs:20-28 | the name is stored unchanged as the only field |
| Model.Entry.New | src/model/mod.rs:37-44 | the entry keeps its id, and `data()` returns the data it was built with |
| Model.EntryData.New | src/model/mod.rs:54-73 | `name()`, `username()` and `password()` return the three values the data was built with |
| Database.EncryptBlob | src/model/database.rs:219-231 | the blob is the nonce followed by the ciphertext: its length is 12 + the ciphertext length, bytes [0,12) are the nonce, and the rest is the ciphertext |
| Database.DecryptBlob | src/model/database.rs:233-242 | a blob shorter than 12 bytes is rejected as too short, and no longer blob is; otherwise bytes [0,12) are the nonce and the rest is the ciphertext, and the result is Ok exactly when the cipher accepts them, with the cipher's plaintext |
| Database.BlobRoundTrip | src/model/database.rs:223-242 | under the cipher laws, decrypting the blob that encryption produced gives the data back, whatever the nonce |
| Database.BlobWrongKey | src/model/database.rs:234-241 | a blob sealed under one key fails to open under a different key |
| Database.BlobWrongNonce | src/model/database.rs:234-241 | a blob whose leading nonce is replaced by a different one fails to open |
| Database.NextRowid | src/model/database.rs:68-90 | the rowid a new entry or group row gets is larger than every rowid already in its table, so it is fresh |
| Database.AppendEntryRow | src/model/database.rs:68-90 | an entry row inserted under the next rowid keeps the entry table in ascending rowid order, and its id is larger than every earlier one |
| Database.AppendGroupRow | src/model/database.rs:137-146 | a group row inserted under the next rowid keeps the group table in ascending rowid order |
| Database.SealEntryData | src/model/database.rs:69-77 | the stored blob starts with the nonce, and under the cipher and codec laws opening and decoding it as `entry`/`entries` do gives the entry data back |
| Database.OpenEntryData | src/model/database.rs:63-64 | opening succeeds exactly when the blob decrypts and the plaintext decodes, giving the decoded data; a decryption failure is passed on unchanged, and otherwise the only failure is a decoding failure |
| Database.FindEntryRow | src/model/database.rs:203-208 | `query_row` by id finds no row exactly when no row has that id; otherwise it finds the first row of the table with that id |
| Database.DecryptEntryRow | src/model/database.rs:203-216 | the by-row `decrypt_blob` reports a missing row exactly when no row has the id; otherwise its result is `decrypt_blob` of the first row with the id |
| Database.LookupEntry | src/model/database.rs:62-66 | `entry(id)` reports a missing row exactly when no row has the id; otherwise it is the first row with the id, opened and decoded, carrying that id, or that row's failure |
| Database.LookupEntryAppendOther | src/model/database.rs:62-90 | appending a row does not change `entry(id)` for any other id |
| Database.FindEntryRowAppendOther | src/model/database.rs:203-208 | appending a row does not change the query by any other id |
| Database.ListEntries | src/model/database.rs:93-117 | the listing succeeds exactly when every row opens and decodes; a failure is the failure of some row; with no filter there is one entry per row, in table order, with that row's id and decoded data |
| Database.FilterByName | src/model/database.rs:106-111 | the kept entries are exactly those whose name contains the filter as a case-sensitive substring, each kept as many times as it occurs, in their order in the input |
| Database.ListEntriesFiltered | src/model/database.rs:93-117 | `entries(Some(f))` is `entries(None)` filtered by name, or the same failure |
| Database.FilterByEmptyName | src/model/database.rs:106-110 | the empty filter keeps every entry |
| Database.ListEntriesAppend | src/model/database.rs:68-117 | after a sealed row is appended, `entries(None)` gains exactly that entry, at its end |
| Database.LookupAgreesWithListing | src/model/database.rs:62-117 | every entry `entries(None)` lists is what `entry` returns for its id |
| Database.FindRootGroup | src/model/database.rs:46-60 | the result is the first group, in table order, that no parent edge names as a child; it fails exactly when every group is a child |
| Database.Database.Open | src/model/database.rs:16-44 | a connection sees the tables in the file, and its `last_insert_rowid` is 0 |
| Database.Database.RootGroupId | src/model/database.rs:46-60 | the id returned belongs to a group that is not a child; it fails exactly when every group is a child |
| Database.Database.EntryById | src/model/database.rs:62-66 | a missing row is reported exactly when no row has the id; otherwise the result is that row's data, opened and decoded, with the id, or that row's failure |
| Database.Database.Entries | src/model/database.rs:93-117 | the listing succeeds exactly when every row opens; with no filter it is one entry per row, in table order, with the row's id and decoded data; with a filter it is the unfiltered listing filtered by name, or the same failure |
| Database.Database.InsertEntry | src/model/database.rs:68-90 | exactly one row is appended, holding the group id and the sealed encoding of the entry, under a fresh id that is returned and becomes `last_insert_rowid`; the other tables are unchanged; `entry` of any other id is unchanged; under the laws `entry(id)` returns the inserted data and `entries(None)` gains it at its end |
| Database.Database.InitTestTables | src/model/database.rs:123-160 | a raw root-group row and one sealed test entry in that group are appended, the parent table is unchanged, `last_insert_rowid` is the entry's id, and under the laws reading the entry back gives it with its new id |
| Text.ContainsIff | src/model/database.rs:107 | `contains` holds exactly when the pattern occurs in the text at some offset |
| Text.IsWhitespace | src/cli.rs:224-225 | the white space `trim` removes includes space, tab, '\n' and '\r', and never a visible ASCII character |
| Text.TrimStart | src/cli.rs:224-225 | the result is a suffix of the input, everything removed is white space, and the result does not start with white space |
| Text.TrimEnd | src/cli.rs:224-225 | the result is a prefix of the input, everything removed is white space, and the result does not end with white space |
| Text.Trim | src/cli.rs:224-225 | the result is a contiguous middle part of the input, everything removed before and after it is white space, and it neither starts nor ends with white space |
| Text.TrimPadded | src/cli.rs:223-225 | a line with non-white-space ends, followed by any white space such as its newline, trims to itself |
| Text.TrimAllWhitespace | src/cli.rs:223-225 | a line of white space only trims to the empty string, at the start and at both ends |
| Text.TrimEndPadded | src/cli.rs:223-225 | trailing white space after a non-white-space character is removed, and nothing else is |
| Text.NewlineIndex | src/cli.rs:126 | the index is that of the first '\n', or the length when there is none |
| Text.Lines | src/cli.rs:126 | empty text has no lines, and any other text has at least one |
| Text.LinesCons | src/cli.rs:126-128 | a line without '\n' and without a final '\r', followed by '\n', is the first line, and the rest of the text holds the other lines |
| Text.LinesCrLf | src/cli.rs:126-128 | a line without '\n' followed by "\r\n" is the first line with the '\r' removed, and the rest of the text holds the other lines, so a credentials file with CRLF endings reads as with LF endings |
| Text.LinesSingle | src/cli.rs:126-128 | text without '\n' is one line, kept as it is |
| Decimal.ShowNat | src/cli.rs:177 | the decimal text of a number is non-empty and all digits, starts with '0' exactly for 0, and then is "0" alone, so there is no leading zero |
| Decimal.HornerShowNat | src/cli.rs:177 | reading back the digits printed for a number gives the number |
| Decimal.ShowInt | src/cli.rs:177 | the printed text of an integer starts with '-' exactly when it is negative and never with '+', its digits have no leading zero (except "0" itself), and its decimal value is the integer; these fix the text `{}` prints |
| Decimal.Accumulate | src/cli.rs:226 | the digit loop succeeds exactly when every character is a digit and the value stays within the limit; its value is then the digits' value; otherwise the error is an invalid digit or the overflow kind |
| Decimal.ParseI64 | src/cli.rs:224-226 | `parse::<i64>` reports Empty exactly on empty text, and succeeds exactly on an optional sign followed by digits whose value fits in 64 bits, giving that value |
| Decimal.ParseShowRoundTrip | src/cli.rs:224-226 | parsing the printed text of any `i64` gives the value back |
| Cli.ReadCredentials | src/cli.rs:124-128 | the file is accepted exactly when it has at least two lines, which are the username and the password; empty content is a missing username, one line is a missing password |
| Cli.CredentialsRoundTrip | src/cli.rs:126-128 | a username and a password written on two lines, followed by anything, are read back |
| Cli.CredentialsLastLine | src/cli.rs:126-128 | without a final newline the password is still read, unless it is empty, in which case it is reported missing |
| Cli.DbPath | src/cli.rs:148-150 | the path is the directory, then the username, then the suffix, with no separator inserted |
| Cli.DbPathInjective | src/cli.rs:150 | with the directory and suffix fixed, two usernames give the same path only when they are equal |
| Cli.ParentGroupId | src/cli.rs:220-234 | a blank line gives the root group id (or its failure); otherwise the trimmed line is accepted exactly when it is a decimal `i64`, and gives that value, and a rejection is a bad group id, never a root lookup |
| Cli.ParentGroupIdRoundTrip | src/cli.rs:220-234 | an id printed by `get` and typed back, with its newline, is read as that id |
| Cli.BlankParentIsRoot | src/cli.rs:224-233 | a line of white space selects the root group |
| Cli.ReadName | src/cli.rs:236-246 | the trimmed name is accepted exactly when every character is a space or visible ASCII; an accepted name has no space at either end; a rejected one is reported with its trimmed text |
| Cli.ValidName | src/cli.rs:240-243 | a name is valid exactly when every character lies between ' ' and '~', that is, is a space or a visible ASCII character |
| Cli.ReadNameRoundTrip | src/cli.rs:236-246 | a valid name with no space at either end, typed with its newline, is read back unchanged |
| Cli.Separator | src/cli.rs:45-46 | without `--separator` the separator is a tab; with it, the given text |
| Cli.SelectedFields | src/cli.rs:171-173 | with `--all` every field is selected; without it each flag is taken as given |
| Cli.Columns | src/cli.rs:175-188 | the name is always printed, plus one column per selected field |
| Cli.JoinSnoc | src/cli.rs:175-188 | one more column adds the separator and that column at the end |
| Cli.EntryLine | src/cli.rs:175-190 | an entry line ends with its newline |
| Cli.EntryLineIsJoin | src/cli.rs:175-190 | an entry line is the optional id, the name, the optional username and the optional password, in that order, separated by the separator, then a newline |
| Cli.GroupLine | src/cli.rs:200-202 | a group line is the id and the name, separated, then a newline |

## Left out

- The opening fallback in `Database::open` (src/model/database.rs:16-44) is not modelled: the `OpenFlags` flags, the `CannotOpen` retry that creates the file, and the `init_test_tables` call for a new file. `Database.Database.Open` stands for a connection to an existing file.
- The creation script that `init_test_tables` runs with `execute_batch` is not modelled. The script is an external file named by an environment variable, so `InitTestTables` starts after it.
- `insert_entry_group` is `todo!()` in password-cli and is not modelled.
- Calls in src/cli.rs to APIs that are not in the modelled files are not given semantics. These are `Database::create`, `groups`, the two-argument `entries` and `insert_entry_group`, `Entry::id`, `EntryGroup::id`, `EntryGroupData::name` and `Credentials`. `Credentials` and the key derivation it feeds are not part of this model. The entry-line and group-line rules take the id and the name as plain values.
- AES-256-GCM, HMAC-SHA256 key hashing and the OS random source are not modelled. The cipher is an opaque pair of functions, and the nonce is a parameter.
- Nonce uniqueness and tamper detection are not proved. The cipher laws state only what the cipher tests assert.
- Encryption.Encrypt: total here; the `EncryptError` path is not modelled, because the opaque cipher has no failure mode to express it.
- CBOR serialisation is an opaque encode/decode pair. Its byte format and its handling of trailing bytes are not modelled.
- Database.NextRowid: ids are unbounded integers, for entry rows and group rows alike. SQLite's 64-bit rowid limit, and the random rowid it picks once the limit is reached, are not modelled.
- Database.ListEntries: a row whose columns have the wrong SQL types is not modelled. password-cli skips such rows in the `filter_map`; every modelled row is well typed.
- SQL execution errors and foreign-key checks are not modelled. Neither are a NULL `child_id` in a parent edge or SQLite's scan order (assumed to be rowid order).
- The private `decrypt_blob` by table and column is modelled only for the one use the code makes of it, the `data` column of `Entry` (`Database.DecryptEntryRow`).
- Terminal and process I/O in src/cli.rs is not modelled: prompts, `read_line`, `read_password`, printing, environment variables, reading the credentials file, and zsh completion. The values these produce are parameters of the modelled rules.
- Building the `EntryData` of `add entry` from its prompts is not modelled. In password-cli the username and the password are only trimmed, never validated.
- src/main.rs, src/bench.rs and src/lib.rs are not part of this model. They hold the entry point, wall-clock timing and module declarations.
