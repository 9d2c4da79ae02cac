/**
 * src/currency/history.rs: the command history, a list of records kept as one cache file in
 * the `CommandHistory` cache directory. `save` reads the stored list, appends a record (or
 * starts over with just that record when the read fails) and writes the list back.
 */
module History {
  import opened Wrappers
  import opened Cache
  import opened FileSystem
  import opened FileCache

  /** One executed command, what it printed and when (an RFC 2822 timestamp). */
  datatype CommandHistory = CommandHistory(command: string, output: string, timestamp: string)

  /** `CommandHistory::new`, with the clock's reading passed in as `timestamp`. */
  function New(command: string, output: string, timestamp: string): (r: CommandHistory)
    ensures r.command == command && r.output == output && r.timestamp == timestamp
  {
    CommandHistory.CommandHistory(command, output, timestamp)
  }

  /** The directory holding the history file. */
  const HistoryDir := CacheConfigs.CommandHistory.GetConfig(None).GetPath()

  /** The effect and result of `get_commands`: the read, with an error reduced to its text. */
  function Commands(t: Tree, now: int, isEnabled: CacheConfig -> bool,
                    deserialize: string -> Result<seq<CommandHistory>, string>)
    : Step<Outcome<Result<seq<CommandHistory>, string>>>
  {
    var read := ReadAndInvalidate(t, CacheConfigs.CommandHistory, None, now, isEnabled, deserialize);
    match read.result
    case Panicked => Step(read.tree, Panicked)
    case Returned(Ok(h)) => Step(read.tree, Returned(Ok(h)))
    case Returned(Err(e)) => Step(read.tree, Returned(Err(e.message)))
  }

  method GetCommands(disk: Disk, now: int, isEnabled: CacheConfig -> bool,
                     deserialize: string -> Result<seq<CommandHistory>, string>)
    returns (o: Outcome<Result<seq<CommandHistory>, string>>)
    modifies disk
    ensures Step(disk.tree, o) == Commands(old(disk.tree), now, isEnabled, deserialize)
  {
    var history := ReadAndInvalidCacheFile(disk, CacheConfigs.CommandHistory, None, now, isEnabled, deserialize);
    if history.Panicked? {
      return Panicked;
    }
    match history.value
    case Ok(h) => o := Returned(Ok(h));
    case Err(e) => o := Returned(Err(e.message));
  }

  /** `get_history`: the same as `get_commands`. */
  method GetHistory(disk: Disk, now: int, isEnabled: CacheConfig -> bool,
                    deserialize: string -> Result<seq<CommandHistory>, string>)
    returns (o: Outcome<Result<seq<CommandHistory>, string>>)
    modifies disk
    ensures Step(disk.tree, o) == Commands(old(disk.tree), now, isEnabled, deserialize)
  {
    o := GetCommands(disk, now, isEnabled, deserialize);
  }

  /**
   * `get_commands` passes the stored list through untouched, and reports every failed read by
   * the text of its error; the file system changes only as the read changes it.
   */
  lemma CommandsMirrorRead(t: Tree, now: int, isEnabled: CacheConfig -> bool,
                           deserialize: string -> Result<seq<CommandHistory>, string>)
    ensures var read := ReadAndInvalidate(t, CacheConfigs.CommandHistory, None, now, isEnabled, deserialize);
            var c := Commands(t, now, isEnabled, deserialize);
            && c.tree == read.tree
            && (c.result.Panicked? <==> read.result.Panicked?)
            && (forall h :: c.result == Returned(Ok(h)) <==> read.result == Returned(Ok(h)))
            && (read.result.Returned? && read.result.value.Err? ==>
                  c.result == Returned(Err(read.result.value.error.message)))
  {
  }

  /** The list `save` writes: the stored list plus the new record, or the record alone. */
  function Appended(history: Result<seq<CommandHistory>, string>, record: CommandHistory): (r: seq<CommandHistory>)
    ensures history.Ok? ==> |r| == |history.value| + 1 && r[..|history.value|] == history.value
    ensures history.Err? ==> r == [record]
    ensures r != [] && r[|r| - 1] == record
  {
    if history.Ok? then history.value + [record] else [record]
  }

  /** The effect and result of `save(output, command)`. */
  function Saved(t: Tree, output: string, command: string, timestamp: string, now: int, fileName: string,
                 isEnabled: CacheConfig -> bool,
                 serialize: seq<CommandHistory> -> Result<string, IoError>,
                 deserialize: string -> Result<seq<CommandHistory>, string>): Step<Outcome<Result<(), string>>>
  {
    var record := New(command, output, timestamp);
    var read := Commands(t, now, isEnabled, deserialize);
    match read.result
    case Panicked => Step(read.tree, Panicked)
    case Returned(history) =>
      var written := Create(read.tree, Appended(history, record), CacheConfigs.CommandHistory, None, fileName, now, isEnabled, serialize);
      match written.result
      case Ok(_) => Step(written.tree, Returned(Ok(())))
      case Err(e) => Step(written.tree, Returned(Err(e.message)))
  }

  method Save(disk: Disk, output: string, command: string, timestamp: string, now: int, fileName: string,
              isEnabled: CacheConfig -> bool,
              serialize: seq<CommandHistory> -> Result<string, IoError>,
              deserialize: string -> Result<seq<CommandHistory>, string>)
    returns (o: Outcome<Result<(), string>>)
    modifies disk
    ensures Step(disk.tree, o) == Saved(old(disk.tree), output, command, timestamp, now, fileName, isEnabled,
                                        serialize, deserialize)
  {
    var record := New(command, output, timestamp);
    var read := GetCommands(disk, now, isEnabled, deserialize);
    if read.Panicked? {
      return Panicked;
    }
    var history: seq<CommandHistory>;
    if read.value.Ok? {
      history := read.value.value;
      history := history + [record];
    } else {
      history := [record];
    }
    var result := CreateCacheFile(disk, history, CacheConfigs.CommandHistory, None, fileName, now, isEnabled, serialize);
    if result.Ok? {
      o := Returned(Ok(()));
    } else {
      o := Returned(Err(result.error.message));
    }
  }

  /**
   * `save` writes exactly the appended list through the cache, and reports `Ok` exactly when
   * that write succeeds, otherwise the write error's text. The record's `command` field is the
   * `command` argument and its `output` field the `output` argument, although `save` takes them
   * the other way round.
   */
  lemma SaveWritesAppendedList(t: Tree, output: string, command: string, timestamp: string, now: int,
                               fileName: string, isEnabled: CacheConfig -> bool,
                               serialize: seq<CommandHistory> -> Result<string, IoError>,
                               deserialize: string -> Result<seq<CommandHistory>, string>)
    requires Commands(t, now, isEnabled, deserialize).result.Returned?
    ensures var read := Commands(t, now, isEnabled, deserialize);
            var list := Appended(read.result.value, New(command, output, timestamp));
            var written := Create(read.tree, list, CacheConfigs.CommandHistory, None, fileName, now, isEnabled, serialize);
            var s := Saved(t, output, command, timestamp, now, fileName, isEnabled, serialize, deserialize);
            && list[|list| - 1] == CommandHistory.CommandHistory(command, output, timestamp)
            && (read.result.value.Ok? ==> list == read.result.value.value + [list[|list| - 1]])
            && (read.result.value.Err? ==> |list| == 1)
            && s.tree == written.tree
            && (s.result == Returned(Ok(())) <==> written.result.Ok?)
            && (written.result.Err? ==> s.result == Returned(Err(written.result.error.message)))
  {
  }

  // ---------------------------------------------------------------- successive saves

  /** The codec turns every list into text and reads that text back as the same list. */
  ghost predicate RoundTrips(serialize: seq<CommandHistory> -> Result<string, IoError>,
                       deserialize: string -> Result<seq<CommandHistory>, string>) {
    forall l :: serialize(l).Ok? && deserialize(serialize(l).value) == Ok(l)
  }

  /**
   * The list the tree holds as a history: the history directory and its ancestors exist, and
   * the directory holds just the file `name`, created at `created`, whose text decodes.
   */
  function StoredHistory(t: Tree, name: string, created: int,
                         deserialize: string -> Result<seq<CommandHistory>, string>): Option<seq<CommandHistory>> {
    if && (forall a :: a in Ancestors(HistoryDir) ==> a in t)
       && HistoryDir in t && |t[HistoryDir]| == 1
       && t[HistoryDir][0].name == name && t[HistoryDir][0].kind == File
       && t[HistoryDir][0].created == Some(created) && t[HistoryDir][0].text.Some?
       && deserialize(t[HistoryDir][0].text.value).Ok?
    then Some(deserialize(t[HistoryDir][0].text.value).value)
    else None
  }

  /** Under the expiry test as written, a stored history created no later than `now` reads back. */
  lemma StoredHistoryReadsBack(t: Tree, name: string, created: int, now: int, isEnabled: CacheConfig -> bool,
                               deserialize: string -> Result<seq<CommandHistory>, string>)
    requires isEnabled(CacheConfigs.CommandHistory.GetConfig(None))
    requires StoredHistory(t, name, created, deserialize).Some? && created <= now
    ensures Commands(t, now, isEnabled, deserialize) == Step(t, Returned(Ok(StoredHistory(t, name, created, deserialize).value)))
  {
    var e := t[HistoryDir][0];
    assert t[HistoryDir] == [Entry(name, File, Some(created), Some(e.text.value))];
    ReadLoneFile(t, CacheConfigs.CommandHistory, None, name, e.text.value, created, now, isEnabled, deserialize,
                 StoredHistory(t, name, created, deserialize).value);
  }

  /** The first save into an empty or missing history directory stores the one-record list. */
  lemma FirstSaveStartsHistory(t: Tree, output: string, command: string, timestamp: string, now: int,
                               fileName: string, isEnabled: CacheConfig -> bool,
                               serialize: seq<CommandHistory> -> Result<string, IoError>,
                               deserialize: string -> Result<seq<CommandHistory>, string>)
    requires '/' !in fileName
    requires isEnabled(CacheConfigs.CommandHistory.GetConfig(None))
    requires RoundTrips(serialize, deserialize)
    requires HistoryDir !in t || t[HistoryDir] == []
    requires !AnyBlocked(t, HistoryDir)
    ensures var s := Saved(t, output, command, timestamp, now, fileName, isEnabled, serialize, deserialize);
            && s.result == Returned(Ok(()))
            && StoredHistory(s.tree, fileName + ".json", now, deserialize) == Some([New(command, output, timestamp)])
  {
    var record := New(command, output, timestamp);
    var name := fileName + ".json";
    ReadMisses(t, CacheConfigs.CommandHistory, None, now, isEnabled, deserialize);
    assert Commands(t, now, isEnabled, deserialize) == Step(t, Returned(Err(NoCacheFile.message)));
    assert serialize([record]).Ok? && deserialize(serialize([record]).value) == Ok([record]);
    CreateStores(t, [record], CacheConfigs.CommandHistory, None, fileName, now, isEnabled, serialize);
    StoreOutcome(t, HistoryDir, name, serialize([record]).value, now);
    StoreIntoEmptyDir(t, HistoryDir, name, serialize([record]).value, now);
  }

  /** A save onto a stored history appends its record and keeps the file's creation time. */
  lemma SaveAppendsRecord(t: Tree, created: int, output: string, command: string,
                          timestamp: string, now: int, fileName: string, isEnabled: CacheConfig -> bool,
                          serialize: seq<CommandHistory> -> Result<string, IoError>,
                          deserialize: string -> Result<seq<CommandHistory>, string>)
    requires '/' !in fileName
    requires isEnabled(CacheConfigs.CommandHistory.GetConfig(None))
    requires RoundTrips(serialize, deserialize)
    requires StoredHistory(t, fileName + ".json", created, deserialize).Some? && created <= now
    ensures var h := StoredHistory(t, fileName + ".json", created, deserialize).value;
            var s := Saved(t, output, command, timestamp, now, fileName, isEnabled, serialize, deserialize);
            && s.result == Returned(Ok(()))
            && StoredHistory(s.tree, fileName + ".json", created, deserialize) == Some(h + [New(command, output, timestamp)])
  {
    var record := New(command, output, timestamp);
    var name := fileName + ".json";
    var h := StoredHistory(t, name, created, deserialize).value;
    var e := t[HistoryDir][0];
    StoredHistoryReadsBack(t, name, created, now, isEnabled, deserialize);
    assert serialize(h + [record]).Ok? && deserialize(serialize(h + [record]).value) == Ok(h + [record]);
    CreateStores(t, h + [record], CacheConfigs.CommandHistory, None, fileName, now, isEnabled, serialize);
    assert t[HistoryDir] == [Entry(name, File, Some(created), Some(e.text.value))];
    StoreOverLoneFile(t, HistoryDir, name, e.text.value, created, serialize(h + [record]).value, now);
  }

  /** One call of `save(output, command)` at time `now`, with the clock's timestamp. */
  datatype SaveCall = SaveCall(output: string, command: string, timestamp: string, now: int)

  /** The records a sequence of calls appends, in call order. */
  function Records(calls: seq<SaveCall>): (r: seq<CommandHistory>)
    ensures |r| == |calls|
    ensures forall i :: 0 <= i < |calls| ==>
              r[i] == New(calls[i].command, calls[i].output, calls[i].timestamp)
  {
    if calls == [] then []
    else [New(calls[0].command, calls[0].output, calls[0].timestamp)] + Records(calls[1..])
  }

  /** How one call is carried out: the tree after it and what it returned. */
  type Saver = (Tree, SaveCall) -> Step<Outcome<Result<(), string>>>

  /** `save` with a fixed file name, switch and codec. */
  function SaveWith(fileName: string, isEnabled: CacheConfig -> bool,
                    serialize: seq<CommandHistory> -> Result<string, IoError>,
                    deserialize: string -> Result<seq<CommandHistory>, string>): Saver
  {
    (u: Tree, c: SaveCall) => Saved(u, c.output, c.command, c.timestamp, c.now, fileName, isEnabled, serialize, deserialize)
  }

  /** Appending the records of a non-empty sequence of calls is appending the first, then the rest. */
  lemma RecordsCons(h: seq<CommandHistory>, calls: seq<SaveCall>)
    requires calls != []
    ensures h + Records(calls) == (h + [New(calls[0].command, calls[0].output, calls[0].timestamp)]) + Records(calls[1..])
  {
  }

  /** The calls performed one after another: the final tree and every call's result. */
  function SavedAll(t: Tree, calls: seq<SaveCall>, save: Saver): (s: Step<seq<Outcome<Result<(), string>>>>)
    ensures |s.result| == |calls|
    decreases |calls|
  {
    if calls == [] then Step(t, [])
    else
      var first := save(t, calls[0]);
      var rest := SavedAll(first.tree, calls[1..], save);
      Step(rest.tree, [first.result] + rest.result)
  }

  /**
   * A step that, on any stored history created no later than the call, succeeds and appends
   * the call's record.
   */
  ghost predicate AppendsOnto(save: Saver, name: string, created: int,
                              deserialize: string -> Result<seq<CommandHistory>, string>) {
    forall u: Tree, c: SaveCall {:trigger save(u, c)} ::
      StoredHistory(u, name, created, deserialize).Some? && created <= c.now ==>
        && save(u, c).result == Returned(Ok(()))
        && StoredHistory(save(u, c).tree, name, created, deserialize)
           == Some(StoredHistory(u, name, created, deserialize).value + [New(c.command, c.output, c.timestamp)])
  }

  /** `save` is such a step whenever the cache is enabled and the codec round-trips. */
  lemma SaveWithAppends(fileName: string, created: int, isEnabled: CacheConfig -> bool,
                        serialize: seq<CommandHistory> -> Result<string, IoError>,
                        deserialize: string -> Result<seq<CommandHistory>, string>)
    requires '/' !in fileName
    requires isEnabled(CacheConfigs.CommandHistory.GetConfig(None))
    requires RoundTrips(serialize, deserialize)
    ensures AppendsOnto(SaveWith(fileName, isEnabled, serialize, deserialize), fileName + ".json", created, deserialize)
  {
    var save := SaveWith(fileName, isEnabled, serialize, deserialize);
    forall u: Tree, c: SaveCall | StoredHistory(u, fileName + ".json", created, deserialize).Some? && created <= c.now
      ensures save(u, c).result == Returned(Ok(()))
      ensures StoredHistory(save(u, c).tree, fileName + ".json", created, deserialize)
              == Some(StoredHistory(u, fileName + ".json", created, deserialize).value + [New(c.command, c.output, c.timestamp)])
    {
      SaveAppendsRecord(u, created, c.output, c.command, c.timestamp, c.now, fileName, isEnabled, serialize, deserialize);
    }
  }

  /**
   * Successive appending steps onto a stored history, none earlier than the file's
   * creation, leave the stored list followed by their records in call order.
   */
  lemma {:induction false} SavesAccumulate(t: Tree, created: int, calls: seq<SaveCall>, save: Saver, name: string,
                                           deserialize: string -> Result<seq<CommandHistory>, string>)
    requires AppendsOnto(save, name, created, deserialize)
    requires StoredHistory(t, name, created, deserialize).Some?
    requires forall i :: 0 <= i < |calls| ==> created <= calls[i].now
    ensures StoredHistory(SavedAll(t, calls, save).tree, name, created, deserialize)
            == Some(StoredHistory(t, name, created, deserialize).value + Records(calls))
    decreases |calls|
  {
    var h := StoredHistory(t, name, created, deserialize).value;
    if calls == [] {
      assert h + Records(calls) == h;
    } else {
      var c := calls[0];
      var record := New(c.command, c.output, c.timestamp);
      var first := save(t, c);
      SavesAccumulate(first.tree, created, calls[1..], save, name, deserialize);
      RecordsCons(h, calls);
    }
  }

  /** ... and every one of those steps reports success. */
  lemma {:induction false} SavesSucceed(t: Tree, created: int, calls: seq<SaveCall>, save: Saver, name: string,
                                        deserialize: string -> Result<seq<CommandHistory>, string>)
    requires AppendsOnto(save, name, created, deserialize)
    requires StoredHistory(t, name, created, deserialize).Some?
    requires forall i :: 0 <= i < |calls| ==> created <= calls[i].now
    ensures forall i :: 0 <= i < |calls| ==> SavedAll(t, calls, save).result[i] == Returned(Ok(()))
    decreases |calls|
  {
    if calls != [] {
      var first := save(t, calls[0]);
      SavesSucceed(first.tree, created, calls[1..], save, name, deserialize);
      var rest := SavedAll(first.tree, calls[1..], save);
      var all := SavedAll(t, calls, save);
      forall i | 0 < i < |calls| ensures all.result[i] == Returned(Ok(())) {
        assert all.result[i] == rest.result[i - 1];
      }
    }
  }

  /**
   * Starting from an empty or missing history directory, `n` successive saves (none earlier
   * than the first) all succeed, and the history then reads back as exactly their records in
   * call order at any later time.
   */
  lemma SavesBuildHistory(t: Tree, calls: seq<SaveCall>, later: int, fileName: string,
                          isEnabled: CacheConfig -> bool,
                          serialize: seq<CommandHistory> -> Result<string, IoError>,
                          deserialize: string -> Result<seq<CommandHistory>, string>)
    requires '/' !in fileName
    requires isEnabled(CacheConfigs.CommandHistory.GetConfig(None))
    requires RoundTrips(serialize, deserialize)
    requires HistoryDir !in t || t[HistoryDir] == []
    requires !AnyBlocked(t, HistoryDir)
    requires calls != [] && forall i :: 0 <= i < |calls| ==> calls[0].now <= calls[i].now <= later
    ensures var s := SavedAll(t, calls, SaveWith(fileName, isEnabled, serialize, deserialize));
            && (forall i :: 0 <= i < |calls| ==> s.result[i] == Returned(Ok(())))
            && Commands(s.tree, later, isEnabled, deserialize) == Step(s.tree, Returned(Ok(Records(calls))))
  {
    var save := SaveWith(fileName, isEnabled, serialize, deserialize);
    var c := calls[0];
    var name := fileName + ".json";
    FirstSaveStartsHistory(t, c.output, c.command, c.timestamp, c.now, fileName, isEnabled, serialize, deserialize);
    var first := save(t, c);
    var record := New(c.command, c.output, c.timestamp);
    SaveWithAppends(fileName, c.now, isEnabled, serialize, deserialize);
    SavesAccumulate(first.tree, c.now, calls[1..], save, name, deserialize);
    SavesSucceed(first.tree, c.now, calls[1..], save, name, deserialize);
    var rest := SavedAll(first.tree, calls[1..], save);
    var s := SavedAll(t, calls, save);
    forall i | 0 < i < |calls| ensures s.result[i] == Returned(Ok(())) {
      assert s.result[i] == rest.result[i - 1];
    }
    StoredHistoryReadsBack(s.tree, name, c.now, later, isEnabled, deserialize);
  }
}
