/** What the recursive listing of a file store shows after a run of uploads. */
module StoreListing {
  import opened Common
  import opened KeyPath
  import opened Listing
  import opened Upload
  import opened UploadSafety
  import opened UploadCrash

  /** The oids with a published file. */
  function StoredOids(s: State): set<string> {
    set e | e in s.dir && e.Final? :: e.key
  }

  ghost predicate LongOid(key: string) {
    PlainKey(key) && |key| >= 3
  }

  /** Every upload of the run names an oid of three characters or more, without '/' and '.'. */
  ghost predicate LongOids(run: Run<Action>) {
    run.Then? ==> LongOids(run.before) && (run.action.Open? ==> LongOid(run.action.key))
  }

  lemma {:induction false} EntriesAreLong(h: Hash, run: Run<Action>)
    requires LongOids(run)
    ensures forall e :: e in After(h, EMPTY, run).dir ==> LongOid(e.key)
  {
    if run.Then? {
      EntriesAreLong(h, run.before);
      var s := After(h, EMPTY, run.before);
      forall e | e in Step(h, s, run.action).dir
        ensures LongOid(e.key)
      {
        assert e in s.dir || Temp(e.key) in s.dir || (run.action.Open? && run.action.key == e.key);
      }
    }
  }

  lemma UnslashTemp(key: string)
    requires PlainKey(key)
    ensures Unslash(PathOf(Temp(key))) == key + ".tmp" && '.' in Unslash(PathOf(Temp(key)))
  {
    assert (key + ".tmp")[|key|] == '.';
    UnslashConcat(TransformKey(key), ".tmp");
    UnslashRecoversKey(key);
    UnslashPlain(".tmp");
  }

  /** Which entry a listed file stands for. */
  lemma ListedEntry(items: seq<Item>, entries: set<Entry>, file: string) returns (e: Entry)
    requires Shows(items, entries) && file in ListingOf(items)
    ensures e in entries && file == PathOf(e)
  {
    ListingExactly(items, file);
    var path :| FileAt(items, path) && file == JoinSlash(path);
    e :| e in entries && path == Components(e);
    ComponentsJoin(e);
  }

  lemma EntryListed(items: seq<Item>, entries: set<Entry>, e: Entry)
    requires Shows(items, entries) && e in entries
    ensures PathOf(e) in ListingOf(items)
  {
    ComponentsJoin(e);
    ListingExactly(items, PathOf(e));
    assert FileAt(items, Components(e));
  }

  lemma ListedIsStored(s: State, items: seq<Item>, file: string)
    requires Shows(items, s.dir.Keys) && forall e :: e in s.dir ==> e.Final? && LongOid(e.key)
    requires file in ListingOf(items)
    ensures Unslash(file) in StoredOids(s)
  {
    var e := ListedEntry(items, s.dir.Keys, file);
    UnslashRecoversKey(e.key);
  }

  lemma TempIsListed(s: State, items: seq<Item>, e: Entry)
    requires Shows(items, s.dir.Keys) && forall f :: f in s.dir ==> LongOid(f.key)
    requires e in s.dir && e.Temp?
    ensures PathOf(e) in ListingOf(items) && Unslash(PathOf(e)) !in StoredOids(s)
  {
    EntryListed(items, s.dir.Keys, e);
    UnslashTemp(e.key);
  }

  /**
    Whatever is in the store: taking the separators out of the listing gives nothing but stored oids
    exactly when no temporary file is left.
  */
  lemma OnlyOidsListedExactly(s: State, items: seq<Item>)
    requires Shows(items, s.dir.Keys) && forall e :: e in s.dir ==> LongOid(e.key)
    ensures (forall file :: file in ListingOf(items) ==> Unslash(file) in StoredOids(s)) <==>
      forall e :: e in s.dir ==> e.Final?
  {
    if forall e :: e in s.dir ==> e.Final? {
      forall file | file in ListingOf(items)
        ensures Unslash(file) in StoredOids(s)
      {
        ListedIsStored(s, items, file);
      }
    } else {
      var e :| e in s.dir && e.Temp?;
      TempIsListed(s, items, e);
    }
  }

  lemma NothingInFlight(h: Hash, run: Run<Action>)
    requires GapFree(h, run) && CrashFree(run) && After(h, EMPTY, run).puts == map[]
    ensures forall e :: e in After(h, EMPTY, run).dir ==> e.Final?
  {
    forall e | e in After(h, EMPTY, run).dir
      ensures e.Final?
    {
      if e.Temp? {
        TempsBelongToLivePuts(h, run, e.key);
        assert false;
      }
    }
  }

  /** After any run of uploads, crashed or not, the store is a directory tree. */
  lemma StoreHasTree(h: Hash, run: Run<Action>) returns (items: seq<Item>)
    requires LongOids(run)
    ensures Shows(items, After(h, EMPTY, run).dir.Keys) && Sharded(items)
  {
    EntriesAreLong(h, run);
    items := TreeExists(After(h, EMPTY, run).dir.Keys);
  }

  lemma FinalsAreStored(s: State)
    requires forall e :: e in s.dir ==> e.Final?
    ensures s.dir.Keys == set k | k in StoredOids(s) :: Final(k)
  {
    forall e | e in s.dir
      ensures e == Final(e.key) && e.key in StoredOids(s)
    {
    }
  }

  /** A store without temporary files, listed. */
  lemma FinalsListed(s: State, items: seq<Item>)
    requires Shows(items, s.dir.Keys) && forall e :: e in s.dir ==> e.Final? && LongOid(e.key)
    ensures Distinct(ListingOf(items))
    ensures forall key :: key in StoredOids(s) ==> TransformKey(key) in ListingOf(items)
    ensures forall file :: file in ListingOf(items) ==>
      Final(Unslash(file)) in s.dir && file == TransformKey(Unslash(file))
  {
    FinalsAreStored(s);
    ListingRecoversKeys(items, StoredOids(s));
  }

  lemma StoredIsSound(h: Hash, run: Run<Action>, key: string)
    requires NeverDamages(h, run) && Final(key) in After(h, EMPTY, run).dir
    ensures var s := After(h, EMPTY, run);
      s.dir[Final(key)] in s.files && h(s.files[s.dir[Final(key)]].data) == key
  {
    SafetyExactly(h, run);
    assert FinalsComplete(h, After(h, EMPTY, run));
  }

  /** The file is the path of a stored oid, and the oid is the hash of what it holds. */
  ghost predicate SoundlyListed(h: Hash, s: State, file: string) {
    var e := Final(Unslash(file));
    file == PathOf(e) && e in s.dir && s.dir[e] in s.files && h(s.files[s.dir[e]].data) == e.key
  }

  /**
    After any run, crashed or not, that damaged no published file and left no temporary one: the listing
    of the store shows each stored oid's path once, nothing else, and every oid read from it is the hash
    of its content.
  */
  lemma ListingShowsTheStore(h: Hash, run: Run<Action>, items: seq<Item>)
    requires NeverDamages(h, run) && LongOids(run) && forall e :: e in After(h, EMPTY, run).dir ==> e.Final?
    requires Shows(items, After(h, EMPTY, run).dir.Keys)
    ensures Distinct(ListingOf(items))
    ensures forall key :: key in StoredOids(After(h, EMPTY, run)) ==> TransformKey(key) in ListingOf(items)
    ensures forall file :: file in ListingOf(items) ==> SoundlyListed(h, After(h, EMPTY, run), file)
  {
    var s := After(h, EMPTY, run);
    EntriesAreLong(h, run);
    FinalsListed(s, items);
    forall file | file in ListingOf(items)
      ensures SoundlyListed(h, s, file)
    {
      StoredIsSound(h, run, Unslash(file));
    }
  }

  /** In particular, without crashes and opens in the gap, whenever no upload is in flight. */
  lemma QuietStoreIsListed(h: Hash, run: Run<Action>, items: seq<Item>)
    requires GapFree(h, run) && CrashFree(run) && LongOids(run) && After(h, EMPTY, run).puts == map[]
    requires Shows(items, After(h, EMPTY, run).dir.Keys)
    ensures Distinct(ListingOf(items))
    ensures forall key :: key in StoredOids(After(h, EMPTY, run)) ==> TransformKey(key) in ListingOf(items)
    ensures forall file :: file in ListingOf(items) ==> SoundlyListed(h, After(h, EMPTY, run), file)
  {
    NothingInFlight(h, run);
    GapFreeIsSafe(h, run);
    VerifiedIsComplete(h, run);
    ListingShowsTheStore(h, run, items);
  }
}
