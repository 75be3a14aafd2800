/** One `config_update_key` call under its lock, with any of its file operations
    free to fail. */
module ConfigUpdate {
  import opened Options
  import opened ConfigText
  import opened ConfigTable
  import opened Updaters

  /** How the file operations of one call go: whether the file opens, after how
      many bytes its reading stops, and which steps of the write succeed. */
  datatype Calls = Calls(opens: bool, stop: nat, created: bool, flushed: bool, synced: bool, renamed: bool)

  predicate Writes(calls: Calls) {
    calls.created && calls.flushed && calls.synced && calls.renamed
  }

  /** How much of the file the call reads. */
  function BytesRead(text: Option<string>, calls: Calls): (n: nat)
    ensures n <= calls.stop && (text.Some? ==> n <= |text.value|)
  {
    match text
    case None => 0
    case Some(t) => if !calls.opens then 0 else if calls.stop < |t| then calls.stop else |t|
  }

  class ConfigPath {
    /** The file a reader of the path sees. */
    var text: Option<string>

    constructor (text: Option<string>)
      ensures this.text == text
    {
      this.text := text;
    }

    /** Opens, reads and parses the file. A missing or unopenable file reports
        failure and leaves the table empty; an error part-way goes unnoticed. */
    method ReadConfig(cfg: Config, calls: Calls) returns (rc: int)
      requires cfg.Valid()
      modifies cfg`count, cfg.pairs
      ensures cfg.Valid() && cfg.Contents() == ReadUpTo(text, BytesRead(text, calls))
      ensures rc == if text.Some? && calls.opens then 0 else -1
    {
      ReadBytes(text, calls);
      if text.None? || !calls.opens {
        cfg.Read("");
        ReadNothing([]);
        return -1;
      }
      cfg.Read(if calls.stop < |text.value| then text.value[..calls.stop] else text.value);
      rc := 0;
    }

    /** Writes a temp file, syncs it and renames it over the path. */
    method WriteAtomic(cfg: Config, calls: Calls) returns (rc: int)
      requires cfg.Valid()
      modifies this`text
      ensures rc == if Writes(calls) then 0 else -1
      ensures text == if rc == 0 then Some(Print(cfg.Contents())) else old(text)
    {
      if !calls.created {
        return -1;
      }
      var tmp := cfg.Render();
      if !calls.flushed {
        return -1;
      }
      if !calls.synced {
        return -1;
      }
      if !calls.renamed {
        return -1;
      }
      text := Some(tmp);
      rc := 0;
    }

    /** Read, skip if unchanged, set, write back. The call fails exactly when the
        table it read is full for the key, or has to be written and a step of that
        fails; a failed call leaves the file alone, a successful one performs the
        update on what it managed to read. */
    method UpdateKey(key: string, value: string, calls: Calls) returns (rc: int)
      modifies this`text
      ensures var u := Update(0, key, value, BytesRead(old(text), calls));
        && rc == (if Succeeds(old(text), u) && (Present(old(text), u) || Writes(calls)) then 0 else -1)
        && text == if rc == 0 then TextAfterOne(old(text), u) else old(text)
    {
      hide Get, Set, Parse, Print, ReadUpTo, BytesRead;
      var cfg := new Config();
      var _ := ReadConfig(cfg, calls);
      ghost var before := cfg.Contents();
      var current := cfg.Lookup(key);
      if current == Some(value) {
        return 0;
      }
      var updated := cfg.Update(key, value);
      if updated != 0 {
        return -1;
      }
      rc := WriteAtomic(cfg, calls);
    }
  }

  /** The update finds its value already there. */
  predicate Present(text: Option<string>, u: Update) {
    Get(ReadUpTo(text, u.got), u.key) == Some(u.value)
  }

  lemma ReadBytes(text: Option<string>, calls: Calls)
    ensures text.None? || !calls.opens ==> ReadUpTo(text, BytesRead(text, calls)) == []
    ensures text.Some? && calls.opens ==>
      ReadUpTo(text, BytesRead(text, calls)) ==
      Parse(if calls.stop < |text.value| then text.value[..calls.stop] else text.value)
  {
    hide ReadFrom;
    ReadNothing([]);
    if text.Some? {
      assert text.value[..0] == "" && text.value[..|text.value|] == text.value;
    }
  }
}
