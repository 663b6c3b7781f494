/** The bot's record of whom it has followed and when (`followed_users`), and
    its persistence in `followed_users.json`: a JSON object from user id to
    the `isoformat` text of the time of the follow. */
module FollowStore {
  import opened Wrappers
  import opened Timestamps

  /** The in-memory dict: its keys in insertion order (the order in which
      iterating it visits them) and its values. */
  datatype Table = Table(order: seq<string>, followed: map<string, Stamp>)

  predicate Distinct(s: seq<string>) {
    forall i, j :: 0 <= i < j < |s| ==> s[i] != s[j]
  }

  /** Appending a new key keeps a list of keys free of repeats. */
  lemma DistinctSnoc(s: seq<string>, k: string)
    requires Distinct(s) && k !in s
    ensures Distinct(s + [k])
  {
    var r := s + [k];
    forall i, j | 0 <= i < j < |r| ensures r[i] != r[j] {
      assert r[i] == s[i];
      if j < |s| { assert r[j] == s[j]; }
    }
  }

  /** `order` names every key of `followed` exactly once, as a dict's iteration does. */
  ghost predicate Tracks(t: Table) {
    Distinct(t.order) && (forall k :: k in t.order <==> k in t.followed)
  }

  const Empty: Table := Table([], map[])

  /** `followed_users[k] = v`: a new key goes to the end of the iteration
      order, an existing key keeps its place and gets the new value. */
  function Put(t: Table, k: string, v: Stamp): Table
  {
    Table(if k in t.followed then t.order else t.order + [k], t.followed[k := v])
  }

  lemma PutSpec(t: Table, k: string, v: Stamp)
    ensures var r := Put(t, k, v);
      && k in r.followed && r.followed[k] == v
      && (forall j :: j != k ==> (j in r.followed <==> j in t.followed))
      && (forall j :: j != k && j in t.followed ==> r.followed[j] == t.followed[j])
      && (Tracks(t) ==> Tracks(r))
      && (Tracks(t) ==> |r.order| == |t.order| + (if k in t.followed then 0 else 1))
  {
    var r := Put(t, k, v);
    if Tracks(t) && k !in t.followed {
      forall i, j | 0 <= i < j < |r.order| ensures r.order[i] != r.order[j] {
        if j == |t.order| {
          assert r.order[i] == t.order[i];
        }
      }
    }
  }

  /** `order` with every occurrence of `k` taken out. */
  function Without(order: seq<string>, k: string): (r: seq<string>)
  {
    if |order| == 0 then []
    else if order[0] == k then Without(order[1..], k)
    else [order[0]] + Without(order[1..], k)
  }

  lemma {:induction false} WithoutSpec(order: seq<string>, k: string)
    ensures forall j :: j in Without(order, k) <==> j in order && j != k
    ensures Distinct(order) ==> Distinct(Without(order, k))
  {
    if |order| > 0 {
      WithoutSpec(order[1..], k);
      assert Distinct(order) ==> order[0] !in order[1..];
    }
  }

  /** `del followed_users[k]`. */
  function Delete(t: Table, k: string): Table {
    Table(Without(t.order, k), t.followed - {k})
  }

  /** After `del followed_users[k]` exactly the key `k` is gone, every other
      entry stays as it was, and the order still lists each key once. */
  lemma DeleteSpec(t: Table, k: string)
    ensures var r := Delete(t, k);
      && k !in r.followed
      && (forall j :: j != k ==> (j in r.followed <==> j in t.followed))
      && (forall j :: j != k && j in t.followed ==> r.followed[j] == t.followed[j])
      && (Tracks(t) ==> Tracks(r))
  {
    WithoutSpec(t.order, k);
  }

  // ------------------------------------------------------------- the file

  /** A JSON value as `json.load` returns it: a string, or anything else. */
  datatype Json = Text(text: string) | NonText

  /** The state file as the JSON layer presents it: absent, not a JSON
      object, or the object's members in file order (a key may repeat). */
  datatype Disk = NoFile | Unreadable | Saved(members: seq<(string, Json)>)

  /** How one `save_followed_users` call ended: the file was written; it
      could not be opened for writing (the old file stays); or writing failed
      after `open(..., 'w')` had emptied it. */
  datatype SaveResult = Written | OpenFailed | WriteFailed

  /** `{k: v.isoformat() for k, v in followed_users.items()}`: the dict of
      texts that is handed to `json.dump`. */
  function Texts(m: map<string, Stamp>): (r: map<string, Json>)
    ensures forall k :: k in r <==> k in m
  {
    map k | k in m :: Text(Format(m[k]))
  }

  /** The members `json.dump` writes for a dict whose iteration order is `order`. */
  function Members(order: seq<string>, data: map<string, Json>): (r: seq<(string, Json)>)
    requires forall k :: k in order ==> k in data
    ensures |r| == |order|
  {
    if |order| == 0 then []
    else Members(order[..|order| - 1], data) + [(order[|order| - 1], data[order[|order| - 1]])]
  }

  /** What `save_followed_users` writes for a table. */
  function Encode(t: Table): (r: seq<(string, Json)>)
    requires Tracks(t)
    ensures |r| == |t.followed|
  {
    TracksLength(t);
    Members(t.order, Texts(t.followed))
  }

  /** The dict `json.load` returns for an object: its keys in the order of
      their first appearance, and their values. */
  datatype Object = Object(keys: seq<string>, values: map<string, Json>)

  /** `json.load` reads the members in file order into a dict, so a
      repeated key keeps its first place and takes its last value. */
  function Collect(members: seq<(string, Json)>): (r: Object)
    ensures forall k :: k in r.keys <==> k in r.values
  {
    if |members| == 0 then Object([], map[])
    else
      var o := Collect(members[..|members| - 1]);
      var (k, v) := members[|members| - 1];
      Object(if k in o.values then o.keys else o.keys + [k], o.values[k := v])
  }

  /** Each key of the dict is listed once. */
  lemma {:induction false} CollectDistinct(members: seq<(string, Json)>)
    ensures Distinct(Collect(members).keys)
  {
    var n := |members|;
    if n > 0 {
      var o := Collect(members[..n - 1]);
      CollectDistinct(members[..n - 1]);
      var k := members[n - 1].0;
      if k !in o.values {
        assert k !in o.keys;
        DistinctSnoc(o.keys, k);
      }
    }
  }

  /** The keys of the dict are the keys of the members. */
  lemma {:induction false} CollectKeys(members: seq<(string, Json)>)
    ensures forall k :: k in Collect(members).values <==> exists i :: 0 <= i < |members| && members[i].0 == k
  {
    var n := |members|;
    if n > 0 {
      var init := members[..n - 1];
      CollectKeys(init);
      forall k ensures k in Collect(members).values <==> exists i :: 0 <= i < n && members[i].0 == k {
        if k != members[n - 1].0 && k in Collect(members).values {
          var i :| 0 <= i < n - 1 && init[i].0 == k;
          assert members[i] == init[i];
        }
        if exists i :: 0 <= i < n && members[i].0 == k {
          var i :| 0 <= i < n && members[i].0 == k;
          if i < n - 1 { assert init[i] == members[i]; }
        }
      }
    }
  }

  /** Each key's value in the dict is the value of its last member. */
  lemma {:induction false} CollectLast(members: seq<(string, Json)>, k: string)
    requires k in Collect(members).values
    ensures exists i :: 0 <= i < |members| && members[i] == (k, Collect(members).values[k])
                        && forall j :: i < j < |members| ==> members[j].0 != k
  {
    var n := |members|;
    var init := members[..n - 1];
    if k == members[n - 1].0 {
      assert members[n - 1] == (k, Collect(members).values[k]);
    } else {
      CollectLast(init, k);
      var i :| 0 <= i < n - 1 && init[i] == (k, Collect(init).values[k])
               && forall j :: i < j < n - 1 ==> init[j].0 != k;
      assert members[i] == init[i];
      forall j | i < j < n ensures members[j].0 != k {
        if j < n - 1 { assert members[j] == init[j]; }
      }
    }
  }

  /** `datetime.fromisoformat(v)`; a value that is not a string raises. */
  function ParseValue(v: Json): (r: Option<Stamp>)
    ensures r.Some? ==> v.Text? && Parse(v.text) == r
  {
    match v
    case Text(s) => Parse(s)
    case NonText => None
  }

  /** `{k: datetime.fromisoformat(v) for k, v in data.items()}` over the
      keys `keys` of the dict; one value that does not parse makes the
      whole comprehension fail. */
  function ParseValues(keys: seq<string>, values: map<string, Json>): (r: Option<Table>)
    requires forall k :: k in keys ==> k in values
    ensures r.Some? ==> Tracks(r.value)
  {
    if |keys| == 0 then Some(Empty)
    else
      var k := keys[|keys| - 1];
      match ParseValues(keys[..|keys| - 1], values)
      case None => None
      case Some(t) =>
        match ParseValue(values[k])
        case None => None
        case Some(v) => PutSpec(t, k, v); Some(Put(t, k, v))
  }

  /** The comprehension fails exactly when the value of some key fails. */
  lemma {:induction false} ParseValuesFails(keys: seq<string>, values: map<string, Json>)
    requires forall k :: k in keys ==> k in values
    ensures ParseValues(keys, values).None? <==> exists k :: k in keys && ParseValue(values[k]).None?
  {
    if |keys| > 0 {
      var init := keys[..|keys| - 1];
      ParseValuesFails(init, values);
      assert forall k :: k in init ==> k in keys;
      assert forall k :: k in keys ==> k in init || k == keys[|keys| - 1];
    }
  }

  /** What `load_followed_users` makes of the members of the file. */
  function DecodeEntries(members: seq<(string, Json)>): (r: Option<Table>)
    ensures r.Some? ==> Tracks(r.value)
  {
    var o := Collect(members);
    ParseValues(o.keys, o.values)
  }

  /** Loading fails exactly when the value some key ends up with does not
      parse; values a repeated key overwrote play no part. */
  lemma DecodeFails(members: seq<(string, Json)>)
    ensures var o := Collect(members);
      DecodeEntries(members).None? <==> exists k :: k in o.values && ParseValue(o.values[k]).None?
  {
    var o := Collect(members);
    ParseValuesFails(o.keys, o.values);
    assert DecodeEntries(members) == ParseValues(o.keys, o.values);
    if exists k :: k in o.values && ParseValue(o.values[k]).None? {
      var k :| k in o.values && ParseValue(o.values[k]).None?;
      assert k in o.keys;
    }
    assert o == Collect(members);
  }

  /** `load_followed_users`: a missing or unreadable file, or any value that
      does not parse, gives the empty table; the failure is not reported. */
  function Load(disk: Disk): (r: Table)
    ensures Tracks(r)
    ensures disk.NoFile? || disk.Unreadable? ==> r == Empty
    ensures disk.Saved? && DecodeEntries(disk.members).None? ==> r == Empty
  {
    match disk
    case NoFile => Empty
    case Unreadable => Empty
    case Saved(members) =>
      match DecodeEntries(members)
      case None => Empty
      case Some(t) => t
  }

  /** The file after `save_followed_users` of table `t`; a failure is only
      logged, so the in-memory table is unaffected either way. */
  function Save(t: Table, disk: Disk, result: SaveResult): (r: Disk)
    requires Tracks(t)
  {
    match result
    case Written => Saved(Encode(t))
    case OpenFailed => disk
    case WriteFailed => Unreadable
  }

  /** After a save that succeeded the file loads as the table; a save that
      could not open the file leaves it as it was; one that failed while
      writing leaves a file that loads as the empty table. */
  lemma SaveSpec(t: Table, disk: Disk, result: SaveResult)
    requires Tracks(t)
    ensures var r := Save(t, disk, result);
      && (result == Written ==> InSync(t, r))
      && (result == OpenFailed ==> r == disk)
      && (result == WriteFailed ==> Load(r) == Empty)
  {
    if result == Written {
      LoadEncode(t);
    }
  }

  /** The file is in step with the table: loading it gives the table back. */
  predicate InSync(t: Table, disk: Disk) {
    Load(disk) == t
  }

  // --------------------------------------------------------------- lemmas

  lemma {:induction false} TracksLength(t: Table)
    requires Tracks(t)
    ensures |t.order| == |t.followed|
  {
    DistinctCard(t.order);
    assert (set k | k in t.order) == t.followed.Keys;
  }

  lemma {:induction false} DistinctCard(s: seq<string>)
    requires Distinct(s)
    ensures |set k | k in s| == |s|
  {
    if |s| > 0 {
      var init := s[..|s| - 1];
      assert Distinct(init);
      DistinctCard(init);
      assert (set k | k in s) == (set k | k in init) + {s[|s| - 1]};
      assert s[|s| - 1] !in init;
    }
  }

  /** The table with keys `order`, in that order, and their values in `m`. */
  function Restrict(order: seq<string>, m: map<string, Stamp>): (r: Table)
    requires forall k :: k in order ==> k in m
  {
    Table(order, map k | k in order :: m[k])
  }

  /** Adding a new key at the end of the order is `Put`. */
  lemma RestrictStep(init: seq<string>, k: string, m: map<string, Stamp>)
    requires forall j :: j in init ==> j in m
    requires k in m && k !in init
    ensures Put(Restrict(init, m), k, m[k]) == Restrict(init + [k], m)
  {
    var r := Restrict(init + [k], m);
    assert Restrict(init, m).followed[k := m[k]] == r.followed;
  }

  /** Dropping the last key of a list without repeats leaves a list
      without repeats that does not hold it. */
  lemma DistinctInit(s: seq<string>)
    requires Distinct(s) && |s| > 0
    ensures Distinct(s[..|s| - 1]) && s[|s| - 1] !in s[..|s| - 1]
  {
    var init := s[..|s| - 1];
    assert forall i :: 0 <= i < |init| ==> init[i] == s[i];
  }

  /** A member with a new key adds that key at the end with its value. */
  lemma CollectNew(members: seq<(string, Json)>, k: string, v: Json)
    requires k !in Collect(members).values
    ensures var o := Collect(members);
      Collect(members + [(k, v)]) == Object(o.keys + [k], o.values[k := v])
  {
    assert (members + [(k, v)])[..|members|] == members;
  }

  /** The dict read back from the members written for distinct keys has
      those keys, in order, each with its value. */
  lemma {:induction false} CollectMembers(order: seq<string>, data: map<string, Json>)
    requires Distinct(order) && forall k :: k in order ==> k in data
    ensures var o := Collect(Members(order, data));
      && o.keys == order
      && forall k :: k in order ==> o.values[k] == data[k]
  {
    var n := |order|;
    if n > 0 {
      var init, k := order[..n - 1], order[n - 1];
      assert init + [k] == order;
      DistinctInit(order);
      assert forall j :: j in init ==> j in order;
      CollectMembers(init, data);
      var e := Members(init, data);
      assert Members(order, data) == e + [(k, data[k])];
      CollectNew(e, k, data[k]);
    }
  }

  /** One more key whose value parses adds it to the table parsed so far. */
  lemma ParseValuesStep(keys: seq<string>, values: map<string, Json>, t: Table, v: Stamp)
    requires |keys| > 0 && forall k :: k in keys ==> k in values
    requires ParseValues(keys[..|keys| - 1], values) == Some(t)
    requires ParseValue(values[keys[|keys| - 1]]) == Some(v)
    ensures ParseValues(keys, values) == Some(Put(t, keys[|keys| - 1], v))
  {
  }

  /** When the value of each of some distinct keys parses, the comprehension
      over them gives those keys, in order, with the parsed times. */
  lemma {:induction false} ParseRestrict(order: seq<string>, values: map<string, Json>, m: map<string, Stamp>)
    requires Distinct(order)
    requires forall k :: k in order ==> k in m && k in values && ParseValue(values[k]) == Some(m[k])
    ensures ParseValues(order, values) == Some(Restrict(order, m))
  {
    var n := |order|;
    if n > 0 {
      var init, k := order[..n - 1], order[n - 1];
      assert init + [k] == order;
      DistinctInit(order);
      assert forall j :: j in init ==> j in order;
      ParseRestrict(init, values, m);
      ParseValuesStep(order, values, Restrict(init, m), m[k]);
      RestrictStep(init, k, m);
    }
  }

  /** Loading what was written for distinct keys rebuilds them in order,
      with their times. */
  lemma DecodeEncode(order: seq<string>, m: map<string, Stamp>)
    requires Distinct(order) && forall k :: k in order ==> k in m
    ensures DecodeEntries(Members(order, Texts(m))) == Some(Restrict(order, m))
  {
    var data := Texts(m);
    CollectMembers(order, data);
    var o := Collect(Members(order, data));
    forall k | k in order ensures ParseValue(o.values[k]) == Some(m[k]) {
      ParseFormat(m[k]);
    }
    ParseRestrict(order, o.values, m);
  }

  /** Saving and then loading gives back the original table: same keys,
      same times to the microsecond, same iteration order. */
  lemma LoadEncode(t: Table)
    requires Tracks(t)
    ensures Load(Saved(Encode(t))) == t
  {
    var members := Encode(t);
    assert members == Members(t.order, Texts(t.followed));
    DecodeEncode(t.order, t.followed);
    RestrictAll(t);
    assert DecodeEntries(members) == Some(t);
  }

  lemma RestrictAll(t: Table)
    requires Tracks(t)
    ensures Restrict(t.order, t.followed) == t
  {
    assert Restrict(t.order, t.followed).followed == t.followed;
  }
}
