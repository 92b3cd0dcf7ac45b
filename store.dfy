/**
 * The password store's table: the `shelve` file seen as a map from string
 * keys to values, the reserved `_serial` counter, the `Entry` record, and
 * the two operations that change the table, `initialize_storge` and
 * `pws_add`. Keys and entries are written in plaintext: `pws_add` does not
 * call the codec.
 */
module Store {
  import opened Wrappers

  /** The reserved key holding the next serial number. */
  const SerialKey: string := "_serial"

  /**
   * One credential. `note` is `None` where Python holds `None`: `pws_add`
   * passes `args.note`, which argparse leaves `None` when no note is given.
   */
  datatype Entry = Entry(context: string, username: string, password: string, note: Option<string>)

  /** `Entry(context, username, password, note=...)`; a note that is not passed defaults to ''. */
  function NewEntry(context: string := "", username: string := "", password: string := "",
                    note: Option<string> := Some("")): (e: Entry)
    ensures e.context == context && e.username == username && e.password == password && e.note == note
  {
    Entry(context, username, password, note)
  }

  /** Fields left out of the call take their defaults: '' for the strings, '' for the note. */
  lemma NewEntryDefaults(context: string, username: string, password: string, note: Option<string>)
    ensures NewEntry() == Entry("", "", "", Some(""))
    ensures NewEntry(context, username, password) == Entry(context, username, password, Some(""))
    ensures NewEntry(context, username, password, note).note == note
  {
  }

  /** What the shelf holds under a key: the serial counter or a pickled Entry. */
  datatype Value = Serial(n: int) | Record(entry: Entry)

  /** `'{}_{}'.format(context, username)`, the text the duplicate check looks for. */
  function Ctx(context: string, username: string): (r: string)
    ensures |r| == |context| + 1 + |username| && r[|context|] == '_'
    ensures r[..|context|] == context && r[|context| + 1..] == username
  {
    context + "_" + username
  }

  function EntryCtx(e: Entry): string
  {
    Ctx(e.context, e.username)
  }

  /** Python's `s.endswith(suffix)`. */
  predicate EndsWith(s: string, suffix: string): (r: bool)
    ensures r <==> |suffix| <= |s| && s == s[..|s| - |suffix|] + suffix
  {
    |suffix| <= |s| && s[|s| - |suffix|..] == suffix
  }

  lemma EndsWithConcat(p: string, suffix: string)
    ensures EndsWith(p + suffix, suffix)
  {
    assert (p + suffix)[|p|..] == suffix;
  }

  function DigitChar(d: int): char
    requires 0 <= d < 10
  {
    ('0' as int + d) as char
  }

  /** Decimal digits of a natural number, most significant first, no leading zeros. */
  function Digits(n: nat): (r: string)
    ensures |r| > 0
    ensures forall i :: 0 <= i < |r| ==> '0' <= r[i] <= '9'
    ensures n > 0 ==> r[0] != '0'
    decreases n
  {
    if n < 10 then [DigitChar(n)] else Digits(n / 10) + [DigitChar(n % 10)]
  }

  /** `str(n)` for a Python int. */
  function Decimal(n: int): (r: string)
    ensures |r| > 0 && r[0] != '_'
    ensures forall i :: 0 <= i < |r| ==> r[i] != '_'
  {
    if n < 0 then "-" + Digits(-n) else Digits(n)
  }

  /** The value a string of decimal digits denotes. */
  function DigitsValue(s: string): int
    decreases |s|
  {
    if s == [] then 0 else 10 * DigitsValue(s[..|s| - 1]) + (s[|s| - 1] as int - '0' as int)
  }

  /** `int(s)` on what `str` wrote. */
  function ParseDecimal(s: string): int
  {
    if |s| > 0 && s[0] == '-' then -DigitsValue(s[1..]) else DigitsValue(s)
  }

  lemma {:induction false} DigitsRoundTrip(n: nat)
    ensures DigitsValue(Digits(n)) == n
    decreases n
  {
    if n >= 10 {
      var s := Digits(n);
      assert s[..|s| - 1] == Digits(n / 10);
      DigitsRoundTrip(n / 10);
    }
  }

  /** `int(str(n)) == n`: `str` loses nothing, so distinct serials give distinct key prefixes. */
  lemma DecimalRoundTrip(n: int)
    ensures ParseDecimal(Decimal(n)) == n
  {
    if n < 0 {
      DigitsRoundTrip(-n);
      assert ("-" + Digits(-n))[1..] == Digits(-n);
    } else {
      DigitsRoundTrip(n);
    }
  }

  /** `'{}_{}'.format(serial, ctx)`: where `pws_add` stores a new entry. */
  function StorageKey(serial: int, ctx: string): (r: string)
    ensures |r| == |Decimal(serial)| + 1 + |ctx| && r[|Decimal(serial)|] == '_'
    ensures r[..|Decimal(serial)|] == Decimal(serial) && r[|Decimal(serial)| + 1..] == ctx
  {
    Decimal(serial) + "_" + ctx
  }

  /** The text in front of the first '_'. */
  function BeforeUnderscore(s: string): string
  {
    if s == [] || s[0] == '_' then [] else [s[0]] + BeforeUnderscore(s[1..])
  }

  lemma {:induction false} BeforeUnderscoreOf(d: string, rest: string)
    requires forall i :: 0 <= i < |d| ==> d[i] != '_'
    ensures BeforeUnderscore(d + "_" + rest) == d
    decreases |d|
  {
    if d != [] {
      assert (d + "_" + rest)[1..] == d[1..] + "_" + rest;
      BeforeUnderscoreOf(d[1..], rest);
      assert [d[0]] + d[1..] == d;
    }
  }

  /**
   * A storage key determines its serial and its context text: the serial's
   * digits hold no '_', so the first '_' ends them.
   */
  lemma StorageKeyInjective(n1: int, c1: string, n2: int, c2: string)
    requires StorageKey(n1, c1) == StorageKey(n2, c2)
    ensures n1 == n2 && c1 == c2
  {
    var d1, d2, k := Decimal(n1), Decimal(n2), StorageKey(n1, c1);
    BeforeUnderscoreOf(d1, c1);
    BeforeUnderscoreOf(d2, c2);
    DecimalRoundTrip(n1);
    DecimalRoundTrip(n2);
    assert c1 == k[|d1| + 1..] == c2;
  }

  /** A storage key ends with the context text it was built from. */
  lemma StorageKeyEndsWithCtx(serial: int, ctx: string)
    ensures EndsWith(StorageKey(serial, ctx), ctx)
    ensures StorageKey(serial, ctx) != SerialKey
  {
    EndsWithConcat(Decimal(serial) + "_", ctx);
    assert StorageKey(serial, ctx)[0] == Decimal(serial)[0] != SerialKey[0];
  }

  /** `initialize_storge`: seed `_serial` with 1 when it is absent, otherwise leave the shelf alone. */
  function Initialized(m: map<string, Value>): (r: map<string, Value>)
    ensures SerialKey in r
  {
    if SerialKey in m then m else m[SerialKey := Serial(1)]
  }

  /** Seeding is idempotent, and it only ever adds the counter. */
  lemma InitializedIdempotent(m: map<string, Value>)
    ensures Initialized(Initialized(m)) == Initialized(m)
    ensures Initialized(m).Keys == m.Keys + {SerialKey}
    ensures forall k :: k in m ==> Initialized(m)[k] == m[k]
  {
  }

  /** Every `_serial` the program ever writes is an integer. */
  predicate SerialIsInt(m: map<string, Value>)
  {
    SerialKey in m ==> m[SerialKey].Serial?
  }

  /** How `pws_add` ends: an entry stored under `key`, the "Context already in use." warning, or a KeyError. */
  datatype AddOutcome = Added(key: string) | ContextInUse | SerialMissing

  datatype AddResult = AddResult(outcome: AddOutcome, shelf: map<string, Value>)

  /** What `pws_add` does to the shelf. */
  function AddEntry(m: map<string, Value>, context: string, username: string, note: Option<string>): (r: AddResult)
    requires SerialIsInt(m)
    ensures r.outcome == ContextInUse <==> exists k :: k in m && EndsWith(k, Ctx(context, username))
    ensures r.outcome == SerialMissing <==>
      SerialKey !in m && forall k :: k in m ==> !EndsWith(k, Ctx(context, username))
    ensures !r.outcome.Added? ==> r.shelf == m
    ensures SerialIsInt(r.shelf)
  {
    var ctx := Ctx(context, username);
    if exists k :: k in m && EndsWith(k, ctx) then
      AddResult(ContextInUse, m)
    else if SerialKey !in m then
      AddResult(SerialMissing, m)
    else
      var n := m[SerialKey].n;
      var key := StorageKey(n, ctx);
      var added := m[key := Record(NewEntry(context, username, "", note))];
      AddResult(Added(key), added[SerialKey := Serial(n + 1)])
  }

  /**
   * A successful add stores exactly one new key, `str(serial) + "_" + ctx`,
   * which was not in the shelf before (any equal key would end with `ctx`
   * and have been caught), holds an Entry with an empty password, advances
   * `_serial` by one and leaves every other key as it was.
   */
  lemma AddedKeyIsFresh(m: map<string, Value>, context: string, username: string, note: Option<string>)
    requires SerialIsInt(m)
    requires AddEntry(m, context, username, note).outcome.Added?
    ensures SerialKey in m
    ensures var r := AddEntry(m, context, username, note);
      && r.outcome.key == StorageKey(m[SerialKey].n, Ctx(context, username))
      && r.outcome.key !in m
      && r.shelf.Keys == m.Keys + {r.outcome.key}
      && |r.shelf| == |m| + 1
      && r.shelf[r.outcome.key] == Record(Entry(context, username, "", note))
      && r.shelf[SerialKey] == Serial(m[SerialKey].n + 1)
      && forall k :: k in m && k != SerialKey ==> r.shelf[k] == m[k]
  {
    var ctx := Ctx(context, username);
    var key := StorageKey(m[SerialKey].n, ctx);
    StorageKeyEndsWithCtx(m[SerialKey].n, ctx);
    var r := AddEntry(m, context, username, note);
    assert r.shelf.Keys == m.Keys + {key};
    assert |m.Keys + {key}| == |m.Keys| + 1;
  }

  /** Adding the same context and username again is refused and changes nothing. */
  lemma AddTwiceRefused(m: map<string, Value>, context: string, username: string,
                        note: Option<string>, note': Option<string>)
    requires SerialIsInt(m)
    requires AddEntry(m, context, username, note).outcome.Added?
    ensures var m' := AddEntry(m, context, username, note).shelf;
      AddEntry(m', context, username, note') == AddResult(ContextInUse, m')
  {
    AddedKeyIsFresh(m, context, username, note);
    var r := AddEntry(m, context, username, note);
    StorageKeyEndsWithCtx(m[SerialKey].n, Ctx(context, username));
    assert r.outcome.key in r.shelf;
  }

  /**
   * The duplicate check is a bare suffix test with no delimiter framing: a
   * stored key "1_xa_b" (context "xa", user "b") blocks context "a", user "b".
   */
  lemma SuffixCheckOverreaches(m: map<string, Value>, note: Option<string>)
    requires SerialIsInt(m) && "1_xa_b" in m
    ensures AddEntry(m, "a", "b", note) == AddResult(ContextInUse, m)
  {
    assert EndsWith("1_xa_b", Ctx("a", "b")) by {
      assert Ctx("a", "b") == "a_b";
      EndsWithConcat("1_x", "a_b");
      assert "1_x" + "a_b" == "1_xa_b";
    }
  }

  /** The check also sees `_serial` itself: context "" with user "serial" can never be added. */
  lemma SerialKeyBlocksItsSuffix(m: map<string, Value>, note: Option<string>)
    requires SerialIsInt(m) && SerialKey in m
    ensures AddEntry(m, "", "serial", note) == AddResult(ContextInUse, m)
  {
    assert Ctx("", "serial") == SerialKey;
    assert EndsWith(SerialKey, SerialKey);
  }

  /** The key of a stored entry carries a serial below the counter and the entry's own context text. */
  ghost predicate KeyedBelow(k: string, e: Entry, serial: int)
  {
    exists j :: 1 <= j < serial && k == StorageKey(j, EntryCtx(e))
  }

  /**
   * The invariant of a shelf built by `initialize_storge` and `pws_add`:
   * `_serial` holds an int equal to the number of keys (so one more than the
   * number of entries), every other key holds an Entry stored under an
   * earlier serial and its own context text, and no two entries share that
   * context text.
   */
  ghost predicate WellFormed(m: map<string, Value>)
  {
    && SerialKey in m && m[SerialKey].Serial?
    && m[SerialKey].n == |m|
    && (forall k :: k in m && k != SerialKey ==> m[k].Record? && KeyedBelow(k, m[k].entry, m[SerialKey].n))
    && (forall k1, k2 ::
          (k1 in m && k2 in m && m[k1].Record? && m[k2].Record? && EntryCtx(m[k1].entry) == EntryCtx(m[k2].entry))
          ==> k1 == k2)
  }

  /** Seeding an empty shelf gives a well-formed one. */
  lemma InitializedEmptyWellFormed()
    ensures WellFormed(Initialized(map[]))
  {
    assert Initialized(map[]) == map[SerialKey := Serial(1)];
  }

  /** Seeding a well-formed shelf changes nothing. */
  lemma InitializedKeepsWellFormed(m: map<string, Value>)
    requires WellFormed(m)
    ensures Initialized(m) == m
  {
  }

  /** After a successful add every entry sits under a serial below the new counter. */
  lemma AddKeepsKeyedBelow(m: map<string, Value>, context: string, username: string, note: Option<string>)
    requires WellFormed(m)
    requires AddEntry(m, context, username, note).outcome.Added?
    ensures var m' := AddEntry(m, context, username, note).shelf;
      forall k :: k in m' && k != SerialKey ==> m'[k].Record? && KeyedBelow(k, m'[k].entry, m[SerialKey].n + 1)
  {
    AddedKeyIsFresh(m, context, username, note);
    var r := AddEntry(m, context, username, note);
    var n, key, m' := m[SerialKey].n, r.outcome.key, r.shelf;
    forall k | k in m' && k != SerialKey
      ensures m'[k].Record? && KeyedBelow(k, m'[k].entry, n + 1)
    {
      if k == key {
        assert k == StorageKey(n, EntryCtx(m'[k].entry));
      } else {
        var j :| 1 <= j < n && k == StorageKey(j, EntryCtx(m[k].entry));
      }
    }
  }

  /** A successful add's context text is shared by no entry already stored. */
  lemma AddedCtxIsNew(m: map<string, Value>, context: string, username: string, note: Option<string>)
    requires WellFormed(m)
    requires AddEntry(m, context, username, note).outcome.Added?
    ensures forall k :: k in m && k != SerialKey ==> EntryCtx(m[k].entry) != Ctx(context, username)
  {
    forall k | k in m && k != SerialKey ensures EntryCtx(m[k].entry) != Ctx(context, username) {
      StoredKeyEndsWithCtx(m, k);
    }
  }

  /** After a successful add no two entries share a context text. */
  lemma AddKeepsCtxUnique(m: map<string, Value>, context: string, username: string, note: Option<string>)
    requires WellFormed(m)
    requires AddEntry(m, context, username, note).outcome.Added?
    ensures var m' := AddEntry(m, context, username, note).shelf;
      forall k1, k2 ::
        (k1 in m' && k2 in m' && m'[k1].Record? && m'[k2].Record? && EntryCtx(m'[k1].entry) == EntryCtx(m'[k2].entry))
        ==> k1 == k2
  {
    AddedKeyIsFresh(m, context, username, note);
    AddedCtxIsNew(m, context, username, note);
  }

  /** `pws_add`, whatever its outcome, keeps the shelf well-formed. */
  lemma AddPreservesWellFormed(m: map<string, Value>, context: string, username: string, note: Option<string>)
    requires WellFormed(m)
    ensures WellFormed(AddEntry(m, context, username, note).shelf)
  {
    if AddEntry(m, context, username, note).outcome.Added? {
      AddedKeyIsFresh(m, context, username, note);
      AddKeepsKeyedBelow(m, context, username, note);
      AddKeepsCtxUnique(m, context, username, note);
    }
  }

  /** In a well-formed shelf every entry's key ends with the entry's context text. */
  lemma StoredKeyEndsWithCtx(m: map<string, Value>, k: string)
    requires WellFormed(m) && k in m && k != SerialKey
    ensures m[k].Record? && EndsWith(k, EntryCtx(m[k].entry))
  {
    var j :| 1 <= j < m[SerialKey].n && k == StorageKey(j, EntryCtx(m[k].entry));
    StorageKeyEndsWithCtx(j, EntryCtx(m[k].entry));
  }

  /**
   * The `filter(lambda x: x.endswith(ctx), keylist)` of `pws_add`, over the
   * keys one at a time.
   */
  method KeysEndingWith(keys: set<string>, ctx: string) returns (res: set<string>)
    ensures res <= keys
    ensures forall k :: k in keys ==> (k in res <==> EndsWith(k, ctx))
  {
    res := {};
    var rest := keys;
    while rest != {}
      invariant rest <= keys && res <= keys - rest
      invariant forall k :: k in keys - rest ==> (k in res <==> EndsWith(k, ctx))
      decreases rest
    {
      var k :| k in rest;
      if EndsWith(k, ctx) {
        res := res + {k};
      }
      rest := rest - {k};
    }
  }

  /** The open shelf, updated in place by the store's commands. */
  class Shelf {
    var contents: map<string, Value>

    constructor (initial: map<string, Value>)
      ensures contents == initial
    {
      contents := initial;
    }

    /** `initialize_storge`. */
    method InitializeStorage()
      modifies this
      ensures contents == Initialized(old(contents))
      ensures SerialKey in old(contents) ==> contents == old(contents)
      ensures SerialKey !in old(contents) ==> contents == old(contents)[SerialKey := Serial(1)]
    {
      if SerialKey !in contents {
        contents := contents[SerialKey := Serial(1)];
      }
    }

    /** `pws_add`: the duplicate check, then the new entry, then the counter. */
    method Add(context: string, username: string, note: Option<string>) returns (outcome: AddOutcome)
      requires SerialIsInt(contents)
      modifies this
      ensures AddResult(outcome, contents) == AddEntry(old(contents), context, username, note)
      ensures WellFormed(old(contents)) ==> WellFormed(contents)
    {
      ghost var m := contents;
      var keylist := contents.Keys;
      var ctx := Ctx(context, username);
      var res := KeysEndingWith(keylist, ctx);
      if |res| > 0 {
        AddPreservesWellFormedIf(m, context, username, note);
        return ContextInUse;
      }
      assert res == {};
      var entry := NewEntry(context := context, username := username, password := "", note := note);
      if SerialKey !in contents {
        AddPreservesWellFormedIf(m, context, username, note);
        return SerialMissing;
      }
      var key := StorageKey(contents[SerialKey].n, ctx);
      StorageKeyEndsWithCtx(contents[SerialKey].n, ctx);
      contents := contents[key := Record(entry)];
      contents := contents[SerialKey := Serial(contents[SerialKey].n + 1)];
      outcome := Added(key);
      AddPreservesWellFormedIf(m, context, username, note);
    }
  }

  lemma AddPreservesWellFormedIf(m: map<string, Value>, context: string, username: string, note: Option<string>)
    requires SerialIsInt(m)
    ensures WellFormed(m) ==> WellFormed(AddEntry(m, context, username, note).shelf)
  {
    if WellFormed(m) {
      AddPreservesWellFormed(m, context, username, note);
    }
  }
}
