/** The relay directory of the snapshot harness: who currently serves a route attachment. */
module RelayDirectory {
  import opened Options

  /** `data` is what a refresh may renew: the serving instance and its lease. */
  datatype Entry = Entry(route: string, attachment: string, token: string, data: string)
  datatype Key = Key(route: string, attachment: string)

  function KeyOf(e: Entry): Key { Key(e.route, e.attachment) }

  datatype Call = Register(entry: Entry) | Refresh(entry: Entry) | Unregister(entry: Entry)

  predicate About(c: Call, k: Key) { KeyOf(c.entry) == k }

  /** Call `i` is the last registration of the key, and its own token has not been unregistered since. */
  ghost predicate Stands(h: seq<Call>, k: Key, i: int) {
    && 0 <= i < |h| && h[i].Register? && About(h[i], k)
    && forall j :: i < j < |h| && About(h[j], k) ==> !h[j].Register? && !(h[j].Unregister? && h[j].entry.token == h[i].entry.token)
  }

  /** Call `m` is the registration at `i` or the last refresh with the same token. */
  ghost predicate Renewed(h: seq<Call>, k: Key, i: int, m: int) {
    && 0 <= i <= m < |h|
    && (m == i || (h[m].Refresh? && About(h[m], k) && h[m].entry.token == h[i].entry.token))
    && forall j :: m < j < |h| && About(h[j], k) && h[j].Refresh? ==> h[j].entry.token != h[i].entry.token
  }

  /** What the history says the directory holds under the key. */
  ghost predicate Serves(h: seq<Call>, k: Key, e: Entry) {
    exists i, m :: Stands(h, k, i) && Renewed(h, k, i, m) && h[m].entry == e
  }

  lemma StandsSnoc(h: seq<Call>, c: Call, k: Key, i: int)
    ensures Stands(h + [c], k, i) <==>
              if i == |h| then c.Register? && About(c, k)
              else Stands(h, k, i) && !(About(c, k) && (c.Register? || (c.Unregister? && c.entry.token == h[i].entry.token)))
  {
    var g := h + [c];
    assert g[|h|] == c && forall j :: 0 <= j < |h| ==> g[j] == h[j];
  }

  lemma RenewedSnoc(h: seq<Call>, c: Call, k: Key, i: int, m: int)
    requires 0 <= i <= |h|
    ensures Renewed(h + [c], k, i, m) <==>
              if m == |h| then i == |h| || (c.Refresh? && About(c, k) && c.entry.token == h[i].entry.token)
              else Renewed(h, k, i, m) && !(c.Refresh? && About(c, k) && c.entry.token == h[i].entry.token)
  {
    var g := h + [c];
    assert g[|h|] == c && forall j :: 0 <= j < |h| ==> g[j] == h[j];
  }

  /** At most one entry is served, and its token is the one last registered. */
  lemma {:induction false} ServesIsUnique(h: seq<Call>, k: Key, e: Entry, f: Entry)
    requires Serves(h, k, e) && Serves(h, k, f)
    ensures e == f && e.route == k.route && e.attachment == k.attachment
  {
    var i, m :| Stands(h, k, i) && Renewed(h, k, i, m) && h[m].entry == e;
    var j, n :| Stands(h, k, j) && Renewed(h, k, j, n) && h[n].entry == f;
    assert i == j;
    assert m == n;
  }

  /** What the directory holds after a call, going by what it held before. */
  ghost predicate ServesAfter(h: seq<Call>, c: Call, k: Key, e: Entry) {
    if !About(c, k) then Serves(h, k, e)
    else
      match c
      case Register(f) => e == f
      case Refresh(f) => (e == f && ServesToken(h, k, f.token)) || (Serves(h, k, e) && e.token != f.token)
      case Unregister(f) => Serves(h, k, e) && e.token != f.token
  }

  ghost predicate ServesToken(h: seq<Call>, k: Key, token: string) {
    exists e :: Serves(h, k, e) && e.token == token
  }

  lemma ServedToken(h: seq<Call>, k: Key, i: int, m: int)
    requires Stands(h, k, i) && Renewed(h, k, i, m)
    ensures h[m].entry.token == h[i].entry.token && KeyOf(h[m].entry) == k
  {
  }

  lemma {:induction false} LatestRenewal(h: seq<Call>, k: Key, i: int) returns (m: int)
    requires Stands(h, k, i)
    ensures Renewed(h, k, i, m)
  {
    m := |h| - 1;
    while m > i && !(h[m].Refresh? && About(h[m], k) && h[m].entry.token == h[i].entry.token)
      invariant i <= m < |h|
      invariant forall j :: m < j < |h| && About(h[j], k) && h[j].Refresh? ==> h[j].entry.token != h[i].entry.token
    {
      m := m - 1;
    }
  }

  lemma ServesSnoc(h: seq<Call>, c: Call, k: Key, e: Entry)
    ensures Serves(h + [c], k, e) <==> ServesAfter(h, c, k, e)
  {
    if Serves(h + [c], k, e) {
      ServesSnocOnlyIf(h, c, k, e);
    }
    if ServesAfter(h, c, k, e) {
      ServesSnocIf(h, c, k, e);
    }
  }

  lemma ServesSnocOnlyIf(h: seq<Call>, c: Call, k: Key, e: Entry)
    requires Serves(h + [c], k, e)
    ensures ServesAfter(h, c, k, e)
  {
    var g := h + [c];
    var i, m :| Stands(g, k, i) && Renewed(g, k, i, m) && g[m].entry == e;
    StandsSnoc(h, c, k, i);
    RenewedSnoc(h, c, k, i, m);
    if i < |h| {
      if m == |h| {
        var n := LatestRenewal(h, k, i);
        ServedToken(h, k, i, n);
        assert Serves(h, k, h[n].entry);
      } else {
        ServedToken(h, k, i, m);
        assert g[m] == h[m];
        assert Serves(h, k, e);
      }
    }
  }

  lemma ServesSnocIf(h: seq<Call>, c: Call, k: Key, e: Entry)
    requires ServesAfter(h, c, k, e)
    ensures Serves(h + [c], k, e)
  {
    var g := h + [c];
    assert g[|h|] == c;
    if About(c, k) && c.Register? {
      StandsSnoc(h, c, k, |h|);
      RenewedSnoc(h, c, k, |h|, |h|);
    } else if About(c, k) && c.Refresh? && e == c.entry && ServesToken(h, k, e.token) {
      var old' :| Serves(h, k, old') && old'.token == e.token;
      var i, m :| Stands(h, k, i) && Renewed(h, k, i, m) && h[m].entry == old';
      ServedToken(h, k, i, m);
      StandsSnoc(h, c, k, i);
      RenewedSnoc(h, c, k, i, |h|);
    } else {
      var i, m :| Stands(h, k, i) && Renewed(h, k, i, m) && h[m].entry == e;
      ServedToken(h, k, i, m);
      StandsSnoc(h, c, k, i);
      RenewedSnoc(h, c, k, i, m);
      assert g[m] == h[m];
    }
  }

  /** A registration is served to whoever asks for its route and attachment, and to nobody else. */
  lemma RegistrationIsServed(h: seq<Call>, e: Entry, route: string, attachment: string, f: Entry)
    ensures Serves(h + [Register(e)], Key(e.route, e.attachment), e)
    ensures (route != e.route || attachment != e.attachment) ==>
              (Serves(h + [Register(e)], Key(route, attachment), f) <==> Serves(h, Key(route, attachment), f))
  {
    ServesSnoc(h, Register(e), Key(e.route, e.attachment), e);
    ServesSnoc(h, Register(e), Key(route, attachment), f);
  }

  /** A refresh or unregister with a superseded token never changes what is served. */
  lemma SupersededCallChangesNothing(h: seq<Call>, c: Call, k: Key, e: Entry, f: Entry)
    requires !c.Register? && Serves(h, k, e) && (About(c, k) ==> c.entry.token != e.token)
    ensures Serves(h + [c], k, f) <==> Serves(h, k, f)
  {
    ServesSnoc(h, c, k, f);
    if Serves(h, k, f) {
      ServesIsUnique(h, k, e, f);
    } else if About(c, k) && c.Refresh? && ServesToken(h, k, c.entry.token) {
      var x :| Serves(h, k, x) && x.token == c.entry.token;
      ServesIsUnique(h, k, e, x);
    }
  }

  class Directory {
    var entries: map<Key, Entry>
    ghost var history: seq<Call>

    ghost predicate Valid()
      reads this
    {
      forall k, e :: Serves(history, k, e) <==> k in entries && entries[k] == e
    }

    constructor ()
      ensures Valid() && history == [] && entries == map[]
    {
      entries := map[];
      history := [];
    }

    ghost method Remember(c: Call)
      requires forall k, e :: ServesAfter(history, c, k, e) <==> k in entries && entries[k] == e
      modifies this`history
      ensures Valid() && history == old(history) + [c]
    {
      forall k, e
        ensures Serves(history + [c], k, e) <==> k in entries && entries[k] == e
      {
        ServesSnoc(history, c, k, e);
      }
      history := history + [c];
    }

    method RegisterEntry(entry: Entry)
      requires Valid()
      modifies this
      ensures Valid() && history == old(history) + [Register(entry)]
    {
      entries := entries[KeyOf(entry) := entry];
      Remember(Register(entry));
    }

    method RefreshEntry(entry: Entry) returns (renewed: bool)
      requires Valid()
      modifies this
      ensures Valid() && history == old(history) + [Refresh(entry)]
      ensures renewed <==> ServesToken(old(history), KeyOf(entry), entry.token)
      ensures !renewed ==> entries == old(entries)
    {
      var k := KeyOf(entry);
      renewed := k in entries && entries[k].token == entry.token;
      assert renewed <==> ServesToken(history, k, entry.token) by {
        if renewed {
          assert Serves(history, k, entries[k]);
        }
      }
      if renewed {
        entries := entries[k := entry];
      }
      Remember(Refresh(entry));
    }

    method UnregisterEntry(entry: Entry)
      requires Valid()
      modifies this
      ensures Valid() && history == old(history) + [Unregister(entry)]
    {
      var k := KeyOf(entry);
      if k in entries && entries[k].token == entry.token {
        entries := entries - {k};
      }
      Remember(Unregister(entry));
    }

    method Locate(route: string, attachment: string) returns (found: Option<Entry>)
      requires Valid()
      ensures found.Some? ==> Serves(history, Key(route, attachment), found.value)
      ensures found.None? ==> forall e :: !Serves(history, Key(route, attachment), e)
    {
      var k := Key(route, attachment);
      found := if k in entries then Some(entries[k]) else None;
    }
  }
}
