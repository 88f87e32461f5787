/** The rules `run` in src/cli.rs applies to what it reads and prints,
    separated from the terminal and file I/O around them. */
module Cli {
  import opened Wrappers
  import opened Text
  import opened Decimal
  import opened Model
  import Database

  /** Why `run` stops (a panic, a `todo!` or an `expect` in password-cli). */
  datatype CliError =
    | BadGroupId(kind: IntErrorKind)        // parse::<i64>() failed other than on empty input
    | RootLookup(cause: Database.StoreError) // root_group_id() panicked
    | InvalidName(name: string)             // todo!("handle invalid input ...")
    | MissingUsername                       // expect("missing username")
    | MissingPassword                       // expect("missing password")

  // ---------------------------------------------------------------------
  // Credentials and database path

  /** A credentials file: the first line is the username, the second the
      password, any further lines are ignored. */
  function ReadCredentials(content: string): (r: Result<(string, string), CliError>)
    ensures r.Ok? <==> |Lines(content)| >= 2
    ensures r.Ok? ==> r.value == (Lines(content)[0], Lines(content)[1])
    ensures content == [] ==> r == Err(MissingUsername)
    ensures |Lines(content)| == 1 ==> r == Err(MissingPassword)
  {
    var lines := Lines(content);
    if |lines| == 0 then Err(MissingUsername)
    else if |lines| == 1 then Err(MissingPassword)
    else Ok((lines[0], lines[1]))
  }

  /** A line as `ReadCredentials` gives it back: no '\n', no final '\r'. */
  predicate PlainLine(s: string) {
    (forall i :: 0 <= i < |s| ==> s[i] != '\n') && (s == [] || s[|s| - 1] != '\r')
  }

  /** Writing a username and a password on two lines, whatever follows,
      gives them back. */
  lemma CredentialsRoundTrip(username: string, password: string, rest: string)
    requires PlainLine(username) && PlainLine(password)
    ensures ReadCredentials(username + "\n" + password + "\n" + rest) == Ok((username, password))
  {
    var content := username + "\n" + password + "\n" + rest;
    assert content == username + "\n" + (password + "\n" + rest);
    LinesCons(username, password + "\n" + rest);
    LinesCons(password, rest);
  }

  /** The final newline may be left out, unless the password is empty: then
      the file has a single line and no password. */
  lemma CredentialsLastLine(username: string, password: string)
    requires PlainLine(username) && PlainLine(password)
    ensures password != [] ==> ReadCredentials(username + "\n" + password) == Ok((username, password))
    ensures password == [] ==> ReadCredentials(username + "\n" + password) == Err(MissingPassword)
  {
    LinesCons(username, password);
    if password != [] {
      LinesSingle(password);
    }
  }

  /** The database file of a user: `<DB_DIR><username><DB_SUFFIX>`, with no
      separator added. */
  function DbPath(dbDir: string, username: string, dbSuffix: string): (path: string)
    ensures |path| == |dbDir| + |username| + |dbSuffix|
    ensures path[..|dbDir|] == dbDir
    ensures path[|dbDir|..|dbDir| + |username|] == username
    ensures path[|dbDir| + |username|..] == dbSuffix
  {
    dbDir + username + dbSuffix
  }

  /** With the directory and suffix fixed, each username has its own file. */
  lemma DbPathInjective(dbDir: string, user1: string, user2: string, dbSuffix: string)
    requires DbPath(dbDir, user1, dbSuffix) == DbPath(dbDir, user2, dbSuffix)
    ensures user1 == user2
  {
    var path := DbPath(dbDir, user1, dbSuffix);
    assert user1 == path[|dbDir|..|dbDir| + |user1|];
  }

  // ---------------------------------------------------------------------
  // The `add` prompts

  /** The parent group typed at an `add` prompt: the trimmed line read as an
      `i64`; an empty line means the root group, looked up only then. */
  function ParentGroupId(line: string, root: Result<int, Database.StoreError>): (r: Result<int, CliError>)
    ensures Trim(line) == [] ==> r == match root case Ok(id) => Ok(id) case Err(e) => Err(RootLookup(e))
    ensures Trim(line) != [] ==> (r.Ok? <==> IsDecimal(Trim(line)) && InI64(DecimalValue(Trim(line))))
    ensures Trim(line) != [] && r.Ok? ==> r.value == DecimalValue(Trim(line))
    ensures Trim(line) != [] && r.Err? ==> r.error.BadGroupId?
  {
    match ParseI64(Trim(line))
    case Ok(v) => Ok(v)
    case Err(Empty) =>
      (match root
       case Ok(id) => Ok(id)
       case Err(e) => Err(RootLookup(e)))
    case Err(k) => Err(BadGroupId(k))
  }

  /** An id printed by `get` and typed back, with its newline, is read as
      that id. */
  lemma ParentGroupIdRoundTrip(id: int, pad: string, root: Result<int, Database.StoreError>)
    requires InI64(id) && AllWhitespace(pad)
    ensures ParentGroupId(ShowInt(id) + pad, root) == Ok(id)
  {
    var s := ShowInt(id);
    assert !IsWhitespace(s[0]) && !IsWhitespace(s[|s| - 1]) by {
      if id < 0 {
        assert s[|s| - 1] == ShowNat(-id)[|ShowNat(-id)| - 1];
      }
    }
    TrimPadded(s, pad);
    ParseShowRoundTrip(id);
  }

  /** A blank line selects the root group. */
  lemma BlankParentIsRoot(line: string, root: Result<int, Database.StoreError>)
    requires AllWhitespace(line)
    ensures ParentGroupId(line, root) == match root case Ok(id) => Ok(id) case Err(e) => Err(RootLookup(e))
  {
    TrimAllWhitespace(line);
  }

  predicate IsAsciiGraphic(c: char) {
    '!' <= c <= '~'
  }

  /** The rule for entry and group names: spaces and visible ASCII only. */
  predicate ValidName(name: string)
    ensures ValidName(name) <==> forall i :: 0 <= i < |name| ==> ' ' <= name[i] <= '~'
  {
    forall i :: 0 <= i < |name| ==> name[i] == ' ' || IsAsciiGraphic(name[i])
  }

  /** An entry or group name typed at a prompt: trimmed, then kept only if
      it passes `ValidName`. */
  function ReadName(line: string): (r: Result<string, CliError>)
    ensures r.Ok? <==> ValidName(Trim(line))
    ensures r.Ok? ==> r.value == Trim(line)
    ensures r.Ok? ==> forall i :: 0 <= i < |r.value| ==> ' ' <= r.value[i] <= '~'
    ensures r.Ok? && r.value != [] ==> r.value[0] != ' ' && r.value[|r.value| - 1] != ' '
    ensures r.Err? ==> r.error == InvalidName(Trim(line))
  {
    var name := Trim(line);
    if ValidName(name) then Ok(name) else Err(InvalidName(name))
  }

  /** A valid name without spaces at its ends, typed with its newline, is
      read back as it is. */
  lemma ReadNameRoundTrip(name: string, pad: string)
    requires ValidName(name) && AllWhitespace(pad)
    requires name == [] || (name[0] != ' ' && name[|name| - 1] != ' ')
    ensures ReadName(name + pad) == Ok(name)
  {
    TrimPadded(name, pad);
  }

  // ---------------------------------------------------------------------
  // The `get` output

  /** The separator `get` prints between fields when `--separator` is absent. */
  const DEFAULT_SEPARATOR: string := "\t"

  function Separator(arg: Option<string>): (sep: string)
    ensures arg.None? ==> sep == "\t"
    ensures arg.Some? ==> sep == arg.value
  {
    match arg
    case None => DEFAULT_SEPARATOR
    case Some(s) => s
  }

  /** Which fields `get entries` prints besides the name. */
  datatype Fields = Fields(id: bool, username: bool, password: bool)

  /** `--all` turns every field on; without it each flag stands alone. */
  function SelectedFields(id: bool, username: bool, password: bool, all: bool): (f: Fields)
    ensures all ==> f == Fields(true, true, true)
    ensures !all ==> f == Fields(id, username, password)
  {
    Fields(id || all, username || all, password || all)
  }

  /** The printed fields of an entry, in print order. */
  function Columns(id: int, data: EntryData, f: Fields): (cols: seq<string>)
    ensures |cols| == 1 + (if f.id then 1 else 0) + (if f.username then 1 else 0) + (if f.password then 1 else 0)
    ensures data.Name() in cols
  {
    (if f.id then [ShowInt(id)] else []) + NamedColumns(data, f)
  }

  /** The columns with the separator between each two. */
  function Join(sep: string, cols: seq<string>): string
    requires |cols| > 0
    decreases |cols|
  {
    if |cols| == 1 then cols[0] else cols[0] + sep + Join(sep, cols[1..])
  }

  lemma {:induction false} JoinSnoc(sep: string, cols: seq<string>, last: string)
    requires |cols| > 0
    ensures Join(sep, cols + [last]) == Join(sep, cols) + sep + last
    decreases |cols|
  {
    if |cols| > 1 {
      assert (cols + [last])[1..] == cols[1..] + [last];
      JoinSnoc(sep, cols[1..], last);
    } else {
      assert cols + [last] == [cols[0], last];
    }
  }

  /** One line of `get entries`. */
  function EntryLine(id: int, data: EntryData, sep: string, f: Fields): (line: string)
    ensures |line| > 0 && line[|line| - 1] == '\n'
  {
    (if f.id then ShowInt(id) + sep else "")
    + data.Name()
    + (if f.username then sep + data.Username() else "")
    + (if f.password then sep + data.Password() else "")
    + "\n"
  }

  /** An entry line is its selected columns, separated, then a newline. */
  lemma EntryLineIsJoin(id: int, data: EntryData, sep: string, f: Fields)
    ensures EntryLine(id, data, sep, f) == Join(sep, Columns(id, data, f)) + "\n"
  {
    var named := NamedColumns(data, f);
    var idPart := if f.id then ShowInt(id) + sep else "";
    var userPart := if f.username then sep + data.Username() else "";
    var passwordPart := if f.password then sep + data.Password() else "";
    var rest := data.Name() + userPart + passwordPart;
    NamedColumnsJoin(data, sep, f);
    Regroup(idPart, data.Name(), userPart, passwordPart);
    if f.id {
      var cols := [ShowInt(id)] + named;
      assert Columns(id, data, f) == cols;
      assert cols[1..] == named;
      assert Join(sep, cols) == ShowInt(id) + sep + rest;
    } else {
      assert Columns(id, data, f) == named;
    }
  }

  lemma Regroup(a: string, b: string, c: string, d: string)
    ensures a + b + c + d == a + (b + c + d)
  {
  }

  /** The columns from the name on. */
  function NamedColumns(data: EntryData, f: Fields): (cols: seq<string>)
    ensures |cols| > 0 && cols[0] == data.Name()
  {
    [data.Name()]
    + (if f.username then [data.Username()] else [])
    + (if f.password then [data.Password()] else [])
  }

  lemma NamedColumnsJoin(data: EntryData, sep: string, f: Fields)
    ensures Join(sep, NamedColumns(data, f))
         == data.Name()
            + (if f.username then sep + data.Username() else "")
            + (if f.password then sep + data.Password() else "")
  {
    var name := [data.Name()];
    var withUser := name + (if f.username then [data.Username()] else []);
    var userPart := if f.username then sep + data.Username() else "";
    assert Join(sep, withUser) == data.Name() + userPart by {
      if f.username { JoinSnoc(sep, name, data.Username()); }
    }
    if f.password {
      JoinSnoc(sep, withUser, data.Password());
    } else {
      assert NamedColumns(data, f) == withUser;
    }
  }

  /** One line of `get groups`: the id, the separator, the name. */
  function GroupLine(id: int, name: string, sep: string): (line: string)
    ensures line == Join(sep, [ShowInt(id), name]) + "\n"
  {
    ShowInt(id) + sep + name + "\n"
  }
}
