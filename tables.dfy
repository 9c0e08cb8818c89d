/**
 * The application tables of both daemons, `std::unordered_map<std::string,
 * application*>` keyed by command line: storing received records into them,
 * and walking them in the map's (unspecified) iteration order.
 */
module Tables {
  import opened Wire

  type Table = map<Cmdline, Application>

  /** Every entry is filed under its own cmdline, and that cmdline fits the receive buffer. */
  predicate Keyed(m: Table)
  {
    forall k :: k in m ==> m[k].cmdline == k && |k| <= CmdlineBufSize
  }

  /** The cmdlines of some records. */
  function Cmdlines(apps: seq<Application>): (r: set<Cmdline>)
  {
    set i | 0 <= i < |apps| :: apps[i].cmdline
  }

  /** The master's `applications[app.cmdline] = ...` for each received record, in order. */
  function StoreAll(m: Table, apps: seq<Application>): (r: Table)
    ensures m.Keys <= r.Keys
    ensures forall i :: 0 <= i < |apps| ==> apps[i].cmdline in r
    ensures apps != [] ==> r[apps[|apps| - 1].cmdline] == apps[|apps| - 1]
    decreases |apps|
  {
    if apps == [] then m else StoreAll(m[apps[0].cmdline := apps[0]], apps[1..])
  }

  /** Storing one more record stores it over whatever the earlier ones left. */
  lemma {:induction false} StoreSnoc(m: Table, apps: seq<Application>, a: Application)
    ensures StoreAll(m, apps + [a]) == StoreAll(m, apps)[a.cmdline := a]
    decreases |apps|
  {
    if apps == [] {
      assert apps + [a] == [a];
      assert StoreAll(m[a.cmdline := a], []) == m[a.cmdline := a];
    } else {
      assert (apps + [a])[1..] == apps[1..] + [a];
      StoreSnoc(m[apps[0].cmdline := apps[0]], apps[1..], a);
    }
  }

  /** The keys after storing: the old ones and the cmdlines received. */
  lemma {:induction false} StoreKeys(m: Table, apps: seq<Application>)
    ensures StoreAll(m, apps).Keys == m.Keys + Cmdlines(apps)
    decreases |apps|
  {
    if apps != [] {
      StoreKeys(m[apps[0].cmdline := apps[0]], apps[1..]);
      assert Cmdlines(apps) == {apps[0].cmdline} + Cmdlines(apps[1..]) by {
        forall c | c in Cmdlines(apps)
          ensures c in {apps[0].cmdline} + Cmdlines(apps[1..])
        {
          var i :| 0 <= i < |apps| && apps[i].cmdline == c;
          if i > 0 {
            assert apps[1..][i - 1].cmdline == c;
          }
        }
        forall c | c in Cmdlines(apps[1..])
          ensures c in Cmdlines(apps)
        {
          var i :| 0 <= i < |apps[1..]| && apps[1..][i].cmdline == c;
          assert apps[i + 1].cmdline == c;
        }
      }
    }
  }

  /** An entry no received record names keeps its old value. */
  lemma {:induction false} StoreUntouched(m: Table, apps: seq<Application>, k: Cmdline)
    requires k in m
    requires forall i :: 0 <= i < |apps| ==> apps[i].cmdline != k
    ensures k in StoreAll(m, apps) && StoreAll(m, apps)[k] == m[k]
    decreases |apps|
  {
    if apps != [] {
      StoreUntouched(m[apps[0].cmdline := apps[0]], apps[1..], k);
    }
  }

  /** Of several records with the same cmdline, the last one received is the one kept. */
  lemma {:induction false} StoreLastWins(m: Table, apps: seq<Application>, i: nat)
    requires i < |apps|
    requires forall j :: i < j < |apps| ==> apps[j].cmdline != apps[i].cmdline
    ensures apps[i].cmdline in StoreAll(m, apps) && StoreAll(m, apps)[apps[i].cmdline] == apps[i]
    decreases |apps|
  {
    if i == 0 {
      var m' := m[apps[0].cmdline := apps[0]];
      forall j | 0 <= j < |apps[1..]|
        ensures apps[1..][j].cmdline != apps[0].cmdline
      {
        assert apps[1..][j] == apps[j + 1];
      }
      StoreUntouched(m', apps[1..], apps[0].cmdline);
    } else {
      forall j | i - 1 < j < |apps[1..]|
        ensures apps[1..][j].cmdline != apps[1..][i - 1].cmdline
      {
        assert apps[1..][j] == apps[j + 1];
      }
      StoreLastWins(m[apps[0].cmdline := apps[0]], apps[1..], i - 1);
    }
  }

  /** `order` is an iteration order of `m`: every key, and as many entries as the map has. */
  predicate IsEnumeration(order: seq<Cmdline>, m: Table)
  {
    && |order| == |m|
    && (forall k :: k in m ==> k in order)
    && (forall i :: 0 <= i < |order| ==> order[i] in m)
  }

  /** Every map has an iteration order. */
  lemma {:induction false} EnumerationExists(m: Table)
    ensures exists order :: IsEnumeration(order, m)
    decreases |m|
  {
    if m == map[] {
      assert IsEnumeration([], m);
    } else {
      var k :| k in m;
      var m' := m - {k};
      assert |m'.Keys| == |m.Keys - {k}| == |m.Keys| - 1;
      EnumerationExists(m');
      var order' :| IsEnumeration(order', m');
      assert IsEnumeration([k] + order', m);
    }
  }

  /** The entries of `m` in the order `order`. */
  function RecordsOf(m: Table, order: seq<Cmdline>): (r: seq<Application>)
    requires forall i :: 0 <= i < |order| ==> order[i] in m
    ensures |r| == |order|
    ensures forall i :: 0 <= i < |order| ==> r[i] == m[order[i]]
  {
    seq(|order|, i requires 0 <= i < |order| => m[order[i]])
  }

  /** One more key walked, one more entry at the end. */
  lemma RecordsSnoc(m: Table, order: seq<Cmdline>, i: nat)
    requires i < |order| && forall j :: 0 <= j < |order| ==> order[j] in m
    ensures RecordsOf(m, order[..i + 1]) == RecordsOf(m, order[..i]) + [m[order[i]]]
  {
  }

  /** The entries of `m` whose keys are in `order`. */
  function Restrict(m: Table, order: seq<Cmdline>): (r: Table)
    ensures r.Keys <= m.Keys
    ensures forall k :: k in r <==> k in m && k in order
  {
    map k | k in m && k in order :: m[k]
  }

  /** Storing the entries of a keyed table, in any order, copies them over the old entries. */
  lemma {:induction false} StoreRecords(m: Table, t: Table, order: seq<Cmdline>)
    requires Keyed(t)
    requires forall i :: 0 <= i < |order| ==> order[i] in t
    ensures StoreAll(m, RecordsOf(t, order)) == m + Restrict(t, order)
    decreases |order|
  {
    if order == [] {
      assert Restrict(t, order) == map[];
      assert m + map[] == m;
    } else {
      var k := order[0];
      RecordsTail(t, order);
      StoreRecords(m[k := t[k]], t, order[1..]);
      RestrictCons(m, t, order);
    }
  }

  lemma RecordsTail(t: Table, order: seq<Cmdline>)
    requires order != [] && forall i :: 0 <= i < |order| ==> order[i] in t
    ensures RecordsOf(t, order)[0] == t[order[0]]
    ensures RecordsOf(t, order)[1..] == RecordsOf(t, order[1..])
  {
  }

  lemma RestrictCons(m: Table, t: Table, order: seq<Cmdline>)
    requires order != [] && order[0] in t
    ensures m[order[0] := t[order[0]]] + Restrict(t, order[1..]) == m + Restrict(t, order)
  {
    forall c | c in order
      ensures c == order[0] || c in order[1..]
    {
      var i :| 0 <= i < |order| && order[i] == c;
      if i > 0 {
        assert order[1..][i - 1] == c;
      }
    }
  }

  /** Storing a whole keyed table in one of its iteration orders yields the old table updated by it. */
  lemma StoreTable(m: Table, t: Table, order: seq<Cmdline>)
    requires Keyed(t) && IsEnumeration(order, t)
    ensures StoreAll(m, RecordsOf(t, order)) == m + t
  {
    StoreRecords(m, t, order);
    RestrictAll(t, order);
  }

  lemma RestrictAll(t: Table, order: seq<Cmdline>)
    requires IsEnumeration(order, t)
    ensures Restrict(t, order) == t
  {
  }

  /** The records of a keyed table all fit the receive buffer. */
  lemma KeyedFits(t: Table, order: seq<Cmdline>)
    requires Keyed(t) && forall i :: 0 <= i < |order| ==> order[i] in t
    ensures FitBuffer(RecordsOf(t, order))
  {
  }
}
