/** The discovery binder (drivers/aurora/driver.js): parses service
    advertisements, keeps the first endpoint seen per controller id, emits
    one `device:<id>` event per id, and lists the known controllers for
    onboarding. */
module Discovery {
  import opened Wrappers
  import Text

  /** The mDNS service the driver browses for. */
  const ServiceType: string := "_nanoleafapi._tcp.local"

  /** What `fullname.replace(…)` strips from the advertised name. */
  const NameSuffix: string := "._nanoleafapi._tcp.local"

  /** An advertisement: `query` and `txt` are absent (`None`) when the record
      carries no such array. */
  datatype Advertisement = Advertisement(
    query: Option<seq<string>>,
    fullname: string,
    host: string,
    port: int,
    txt: Option<seq<string>>)

  /** A found controller, as stored in `_foundDevices`. */
  datatype Endpoint = Endpoint(name: string, host: string, port: int)

  /** `_foundDevices`, keyed by the JavaScript property key of the id. */
  type Store = map<string, Endpoint>

  /** The one-shot `device:<key>` event. */
  datatype Found = Found(key: string, endpoint: Endpoint)

  /** The parsed TXT record: a missing value (`undefined`) is `None`. */
  type Txt = map<string, Option<string>>

  /** The key of one `key=value` entry: the text before the first `=`. */
  function EntryKey(entry: string): string {
    Text.Split(entry, '=')[0]
  }

  /** The value of one entry: the segment after the first `=` (up to a
      second `=`, if any); absent when the entry has no `=`. */
  function EntryValue(entry: string): Option<string> {
    var parts := Text.Split(entry, '=');
    if |parts| > 1 then Some(parts[1]) else None
  }

  /** Assigns the pairs into an object in order, each assignment overwriting
      any earlier one for the same key. */
  function Assign<K, V>(pairs: seq<(K, V)>): map<K, V>
  {
    if pairs == [] then map[]
    else
      var last := pairs[|pairs| - 1];
      Assign(pairs[..|pairs| - 1])[last.0 := last.1]
  }

  /** Each entry split into its key and value. */
  function Pairs(entries: seq<string>): (pairs: seq<(string, Option<string>)>)
    ensures |pairs| == |entries|
    ensures forall i :: 0 <= i < |entries| ==> pairs[i] == (EntryKey(entries[i]), EntryValue(entries[i]))
  {
    seq(|entries|, i requires 0 <= i < |entries| => (EntryKey(entries[i]), EntryValue(entries[i])))
  }

  /** `parseTxt`: null for a non-array, otherwise the entries as an object. */
  function ParseTxt(txt: Option<seq<string>>): (r: Option<Txt>)
    ensures r.None? <==> txt.None?
  {
    match txt
    case None => None
    case Some(entries) => Some(Assign(Pairs(entries)))
  }

  /** Pair `i` is the last one with its key. */
  ghost predicate LastWithKey<K, V>(pairs: seq<(K, V)>, i: int)
    requires 0 <= i < |pairs|
  {
    forall j :: i < j < |pairs| ==> pairs[j].0 != pairs[i].0
  }

  /** The object holds exactly the pairs' keys, and the last pair with a
      given key decides its value (last write wins). */
  lemma {:induction false} AssignLastWriteWins<K, V>(pairs: seq<(K, V)>)
    ensures Assign(pairs).Keys == set i | 0 <= i < |pairs| :: pairs[i].0
    ensures forall i :: 0 <= i < |pairs| && LastWithKey(pairs, i) ==> Assign(pairs)[pairs[i].0] == pairs[i].1
    decreases |pairs|
  {
    if pairs != [] {
      var n := |pairs| - 1;
      var init := pairs[..n];
      AssignLastWriteWins(init);
      assert forall i :: 0 <= i < n ==> init[i] == pairs[i];
      var keys := set i | 0 <= i < |pairs| :: pairs[i].0;
      var initKeys := set i | 0 <= i < n :: init[i].0;
      assert keys == initKeys + {pairs[n].0} by {
        forall k | k in keys ensures k in initKeys + {pairs[n].0} {
          var i :| 0 <= i < |pairs| && pairs[i].0 == k;
          if i < n {
            assert init[i].0 == k;
          }
        }
      }
      forall i | 0 <= i < |pairs| && LastWithKey(pairs, i)
        ensures Assign(pairs)[pairs[i].0] == pairs[i].1
      {
        if i < n {
          assert pairs[n].0 != pairs[i].0;
          assert LastWithKey(init, i);
        }
      }
    }
  }

  /** `parseTxt` on an array: every entry's key is present, nothing else
      is, and a later entry with the same key overwrites an earlier one. */
  lemma ParseTxtLastWriteWins(entries: seq<string>)
    ensures ParseTxt(Some(entries)).value.Keys == set i | 0 <= i < |entries| :: EntryKey(entries[i])
    ensures forall i :: 0 <= i < |entries| && (forall j :: i < j < |entries| ==> EntryKey(entries[j]) != EntryKey(entries[i])) ==>
              ParseTxt(Some(entries)).value[EntryKey(entries[i])] == EntryValue(entries[i])
  {
    var pairs := Pairs(entries);
    AssignLastWriteWins(pairs);
    assert (set i | 0 <= i < |pairs| :: pairs[i].0) == set i | 0 <= i < |entries| :: EntryKey(entries[i]);
    forall i | 0 <= i < |entries| && (forall j :: i < j < |entries| ==> EntryKey(entries[j]) != EntryKey(entries[i]))
      ensures LastWithKey(pairs, i)
    {
    }
  }

  /** The shape of one entry: an entry without `=` is all key and has no
      value; otherwise, with `i` the position of the first `=`, the key is
      the text before it and the value the `=`-free prefix of the rest. */
  lemma EntryShape(entry: string)
    ensures '=' !in entry ==> EntryKey(entry) == entry && EntryValue(entry) == None
    ensures '=' in entry ==>
              var i := Text.IndexOfChar(entry, '=').value;
              var tail := entry[i + 1..];
              && EntryKey(entry) == entry[..i]
              && EntryValue(entry).Some?
              && '=' !in EntryValue(entry).value
              && EntryValue(entry).value <= tail
              && (|EntryValue(entry).value| < |tail| ==> tail[|EntryValue(entry).value|] == '=')
  {
    if '=' in entry {
      var i := Text.IndexOfChar(entry, '=').value;
      var tail := entry[i + 1..];
      var rest := Text.Split(tail, '=');
      assert Text.Split(entry, '=') == [entry[..i]] + rest;
      assert EntryValue(entry) == Some(rest[0]);
      SegmentShape(tail);
    }
  }

  /** The first segment of a split is the separator-free prefix. */
  lemma SegmentShape(tail: string)
    ensures var v := Text.Split(tail, '=')[0];
            && '=' !in v && v <= tail && (|v| < |tail| ==> tail[|v|] == '=')
  {
    var rest := Text.Split(tail, '=');
    Text.SplitJoin(tail, '=');
    var v := rest[0];
    if |rest| > 1 {
      assert tail == v + ['='] + Text.Join(rest[1..], '=');
      assert tail[|v|] == '=';
    }
  }

  /** The advertisement is for the controller service and carries a TXT
      array. */
  predicate Accepted(ad: Advertisement) {
    ad.query.Some? && ServiceType in ad.query.value && ad.txt.Some?
  }

  /** The JavaScript property key of `txtObj.id`: a missing id becomes the
      key "undefined". */
  function IdKey(id: Option<Option<string>>): string {
    match id
    case Some(Some(s)) => s
    case _ => "undefined"
  }

  /** The id key of an accepted advertisement. */
  function KeyOf(ad: Advertisement): string
    requires Accepted(ad)
  {
    var txt := ParseTxt(ad.txt).value;
    IdKey(if "id" in txt then Some(txt["id"]) else None)
  }

  /** An advertisement whose TXT record has no usable `id` is not dropped:
      it is filed under the key "undefined". */
  lemma MissingIdFiledAsUndefined(ad: Advertisement)
    requires Accepted(ad)
    requires forall i :: 0 <= i < |ad.txt.value| ==> EntryKey(ad.txt.value[i]) != "id"
    ensures KeyOf(ad) == "undefined"
  {
    ParseTxtLastWriteWins(ad.txt.value);
  }

  /** The advertised name without the service suffix. */
  function DisplayName(fullname: string): (name: string)
    ensures |name| <= |fullname|
  {
    Text.RemoveFirst(fullname, NameSuffix)
  }

  /** The stored name drops the first occurrence of the service suffix: a
      name ending in it (and holding it nowhere earlier) loses exactly that
      ending, and a name without it is kept as is. */
  lemma DisplayNameContract(base: string, fullname: string)
    ensures (forall j: nat :: !Text.OccursAt(base + NameSuffix, NameSuffix, j) || j >= |base|)
              ==> DisplayName(base + NameSuffix) == base
    ensures (forall j: nat :: !Text.OccursAt(fullname, NameSuffix, j)) ==> DisplayName(fullname) == fullname
  {
    var s := base + NameSuffix;
    if forall j: nat :: !Text.OccursAt(s, NameSuffix, j) || j >= |base| {
      assert Text.OccursAt(s, NameSuffix, |base|) by {
        assert s[|base|..|base| + |NameSuffix|] == NameSuffix;
      }
      assert s[..|base|] == base;
      assert s[|base| + |NameSuffix|..] == [];
    }
  }

  /** What an advertisement contributes: nothing when filtered out,
      otherwise its id key and the endpoint it describes. */
  datatype Sighting = Sighting(key: string, endpoint: Endpoint)

  function Sight(ad: Advertisement): Option<Sighting> {
    if !Accepted(ad) then None
    else Some(Sighting(KeyOf(ad), Endpoint(DisplayName(ad.fullname), ad.host, ad.port)))
  }

  /** Keeps the first endpoint per key and emits its event once. */
  function Record(store: Store, sight: Option<Sighting>): (Store, seq<Found>) {
    match sight
    case None => (store, [])
    case Some(Sighting(key, ep)) =>
      if key in store then (store, []) else (store[key := ep], [Found(key, ep)])
  }

  /** The `update` handler: the new store and the events it emits. */
  function Update(store: Store, ad: Advertisement): (Store, seq<Found>) {
    Record(store, Sight(ad))
  }

  /** Filtering and first-sighting rule of one advertisement. */
  lemma UpdateContract(store: Store, ad: Advertisement)
    ensures !Accepted(ad) ==> Update(store, ad) == (store, [])
    ensures Accepted(ad) && KeyOf(ad) in store ==> Update(store, ad) == (store, [])
    ensures Accepted(ad) && KeyOf(ad) !in store ==>
              var (s', events) := Update(store, ad);
              && s'.Keys == store.Keys + {KeyOf(ad)}
              && (forall k :: k in store ==> s'[k] == store[k])
              && s'[KeyOf(ad)] == Endpoint(DisplayName(ad.fullname), ad.host, ad.port)
              && events == [Found(KeyOf(ad), s'[KeyOf(ad)])]
  {
  }

  /** A stream of advertisements, handled one after the other. */
  function UpdateAll(store: Store, ads: seq<Advertisement>): (Store, seq<Found>)
    decreases |ads|
  {
    if ads == [] then (store, [])
    else
      var (s1, e1) := Update(store, ads[0]);
      var (s2, e2) := UpdateAll(s1, ads[1..]);
      (s2, e1 + e2)
  }

  function RecordAll(store: Store, sights: seq<Option<Sighting>>): (Store, seq<Found>)
    decreases |sights|
  {
    if sights == [] then (store, [])
    else
      var (s1, e1) := Record(store, sights[0]);
      var (s2, e2) := RecordAll(s1, sights[1..]);
      (s2, e1 + e2)
  }

  lemma {:induction false} UpdateAllIsRecordAll(store: Store, ads: seq<Advertisement>)
    ensures UpdateAll(store, ads) == RecordAll(store, seq(|ads|, i requires 0 <= i < |ads| => Sight(ads[i])))
    decreases |ads|
  {
    var sights := seq(|ads|, i requires 0 <= i < |ads| => Sight(ads[i]));
    if ads != [] {
      UpdateAllIsRecordAll(Record(store, sights[0]).0, ads[1..]);
      assert sights[1..] == seq(|ads[1..]|, i requires 0 <= i < |ads[1..]| => Sight(ads[1..][i]));
    }
  }

  /** Over any stream of sightings: stored endpoints are never replaced,
      every new key emits exactly one event carrying its stored endpoint, and
      keys already known emit nothing. */
  lemma {:induction false} RecordAllDeduplicates(store: Store, sights: seq<Option<Sighting>>)
    ensures var (s', events) := RecordAll(store, sights);
            && (forall k :: k in store ==> k in s' && s'[k] == store[k])
            && (forall k :: k in s' <==> k in store || exists i :: 0 <= i < |events| && events[i].key == k)
            && (forall i :: 0 <= i < |events| ==>
                  events[i].key !in store && events[i].key in s' && s'[events[i].key] == events[i].endpoint)
            && (forall i, j :: 0 <= i < j < |events| ==> events[i].key != events[j].key)
    decreases |sights|
  {
    if sights != [] {
      var (s1, e1) := Record(store, sights[0]);
      RecordAllDeduplicates(s1, sights[1..]);
      var (s2, e2) := RecordAll(s1, sights[1..]);
      var events := e1 + e2;
      assert RecordAll(store, sights) == (s2, events);
      assert forall i :: 0 <= i < |e2| ==> events[|e1| + i] == e2[i];
      forall k | k in s2
        ensures k in store || exists i :: 0 <= i < |events| && events[i].key == k
      {
        if k !in s1 {
          var i :| 0 <= i < |e2| && e2[i].key == k;
          assert events[|e1| + i].key == k;
        } else if k !in store {
          assert events[0].key == k;
        }
      }
      forall i, j | 0 <= i < j < |events|
        ensures events[i].key != events[j].key
      {
        if i >= |e1| {
          assert events[i] == e2[i - |e1|] && events[j] == e2[j - |e1|];
        } else {
          assert events[j] == e2[j - |e1|];
        }
      }
    }
  }

  /** Sighting `i` is the first in the stream to carry `key`. */
  ghost predicate FirstSighting(sights: seq<Option<Sighting>>, i: int, key: string) {
    && 0 <= i < |sights| && sights[i].Some? && sights[i].value.key == key
    && forall j :: 0 <= j < i ==> sights[j].None? || sights[j].value.key != key
  }

  /** The other half: every sighted key ends up stored, a key that was not
      stored before holds the endpoint of its first sighting, and a key is
      stored only if it was stored before or sighted. */
  lemma {:induction false} RecordAllComplete(store: Store, sights: seq<Option<Sighting>>)
    ensures var s' := RecordAll(store, sights).0;
            && (forall i :: 0 <= i < |sights| && sights[i].Some? ==> sights[i].value.key in s')
            && (forall i, k :: k !in store && FirstSighting(sights, i, k) ==> k in s' && s'[k] == sights[i].value.endpoint)
            && (forall k :: k in s' ==> k in store || exists i :: 0 <= i < |sights| && sights[i].Some? && sights[i].value.key == k)
    decreases |sights|
  {
    if sights != [] {
      var (s1, e1) := Record(store, sights[0]);
      RecordAllComplete(s1, sights[1..]);
      RecordAllDeduplicates(s1, sights[1..]);
      var s' := RecordAll(s1, sights[1..]).0;
      assert RecordAll(store, sights).0 == s';
      forall i | 0 <= i < |sights| && sights[i].Some?
        ensures sights[i].value.key in s'
      {
        if i > 0 {
          assert sights[1..][i - 1] == sights[i];
        }
      }
      forall i, k | k !in store && FirstSighting(sights, i, k)
        ensures k in s' && s'[k] == sights[i].value.endpoint
      {
        if i > 0 {
          assert k !in s1;
          assert FirstSighting(sights[1..], i - 1, k);
        }
      }
      forall k | k in s'
        ensures k in store || exists i :: 0 <= i < |sights| && sights[i].Some? && sights[i].value.key == k
      {
        if k !in s1 {
          var i :| 0 <= i < |sights[1..]| && sights[1..][i].Some? && sights[1..][i].value.key == k;
          assert sights[i + 1] == sights[1..][i];
        } else if k !in store {
          assert sights[0].Some? && sights[0].value.key == k;
        }
      }
    }
  }

  /** What an advertisement contributes, in terms of the handler's own tests. */
  lemma SightOf(ad: Advertisement)
    ensures Sight(ad).Some? <==> Accepted(ad)
    ensures Accepted(ad) ==> Sight(ad).value == Sighting(KeyOf(ad), Endpoint(DisplayName(ad.fullname), ad.host, ad.port))
  {
  }

  /** Over a stream of advertisements: every accepted advertisement's id ends
      up stored, a new id holds the endpoint of its first advertisement, and
      nothing else is stored. */
  lemma UpdateAllComplete(store: Store, ads: seq<Advertisement>)
    ensures var s' := UpdateAll(store, ads).0;
            && (forall i :: 0 <= i < |ads| && Accepted(ads[i]) ==> KeyOf(ads[i]) in s')
            && (forall i :: 0 <= i < |ads| && FirstAccepted(ads, i) && KeyOf(ads[i]) !in store ==>
                  s'[KeyOf(ads[i])] == Endpoint(DisplayName(ads[i].fullname), ads[i].host, ads[i].port))
            && (forall k :: k in s' ==> k in store || exists i :: 0 <= i < |ads| && Accepted(ads[i]) && KeyOf(ads[i]) == k)
  {
    var sights := seq(|ads|, i requires 0 <= i < |ads| => Sight(ads[i]));
    UpdateAllIsRecordAll(store, ads);
    RecordAllComplete(store, sights);
    var s' := UpdateAll(store, ads).0;
    forall i | 0 <= i < |ads| && Accepted(ads[i])
      ensures KeyOf(ads[i]) in s'
    {
      SightOf(ads[i]);
      assert sights[i].Some?;
    }
    forall i | 0 <= i < |ads| && FirstAccepted(ads, i) && KeyOf(ads[i]) !in store
      ensures s'[KeyOf(ads[i])] == Endpoint(DisplayName(ads[i].fullname), ads[i].host, ads[i].port)
    {
      SightOf(ads[i]);
      forall j | 0 <= j < i
        ensures sights[j].None? || sights[j].value.key != KeyOf(ads[i])
      {
        SightOf(ads[j]);
      }
      assert FirstSighting(sights, i, KeyOf(ads[i]));
    }
    forall k | k in s'
      ensures k in store || exists i :: 0 <= i < |ads| && Accepted(ads[i]) && KeyOf(ads[i]) == k
    {
      if k !in store {
        var i :| 0 <= i < |sights| && sights[i].Some? && sights[i].value.key == k;
        SightOf(ads[i]);
        assert Accepted(ads[i]) && KeyOf(ads[i]) == k;
      }
    }
  }

  /** The same guarantees for any stream of advertisements, both ways: known
      endpoints are never replaced, each new id emits exactly one event,
      every accepted advertisement's id ends up stored, a new id holds the
      endpoint of its first advertisement, and nothing else is stored. */
  lemma UpdateAllDeduplicates(store: Store, ads: seq<Advertisement>)
    ensures var (s', events) := UpdateAll(store, ads);
            && (forall k :: k in store ==> k in s' && s'[k] == store[k])
            && (forall k :: k in s' <==> k in store || exists i :: 0 <= i < |events| && events[i].key == k)
            && (forall i :: 0 <= i < |events| ==>
                  events[i].key !in store && events[i].key in s' && s'[events[i].key] == events[i].endpoint)
            && (forall i, j :: 0 <= i < j < |events| ==> events[i].key != events[j].key)
            && (forall i :: 0 <= i < |ads| && Accepted(ads[i]) ==> KeyOf(ads[i]) in s')
            && (forall i :: 0 <= i < |ads| && FirstAccepted(ads, i) && KeyOf(ads[i]) !in store ==>
                  s'[KeyOf(ads[i])] == Endpoint(DisplayName(ads[i].fullname), ads[i].host, ads[i].port))
            && (forall k :: k in s' ==> k in store || exists i :: 0 <= i < |ads| && Accepted(ads[i]) && KeyOf(ads[i]) == k)
  {
    UpdateAllIsRecordAll(store, ads);
    RecordAllDeduplicates(store, seq(|ads|, i requires 0 <= i < |ads| => Sight(ads[i])));
    UpdateAllComplete(store, ads);
  }

  /** Advertisement `i` is accepted and is the first accepted one for its id. */
  ghost predicate FirstAccepted(ads: seq<Advertisement>, i: int) {
    && 0 <= i < |ads| && Accepted(ads[i])
    && forall j :: 0 <= j < i ==> !Accepted(ads[j]) || KeyOf(ads[j]) != KeyOf(ads[i])
  }

  /** What `getNanoleafDevice` finds after a stream of advertisements: a
      known id keeps its endpoint; a new id is found exactly when some
      accepted advertisement carried it, and then it is the endpoint of the
      first such advertisement. */
  lemma DiscoveredLookup(store: Store, ads: seq<Advertisement>, id: string)
    ensures var s' := UpdateAll(store, ads).0;
            && (id in store ==> GetNanoleafDevice(s', id) == Some(store[id]))
            && (id !in store ==>
                  (GetNanoleafDevice(s', id).Some? <==> exists i :: 0 <= i < |ads| && Accepted(ads[i]) && KeyOf(ads[i]) == id))
            && (forall i :: 0 <= i < |ads| && id !in store && FirstAccepted(ads, i) && KeyOf(ads[i]) == id ==>
                  GetNanoleafDevice(s', id) == Some(Endpoint(DisplayName(ads[i].fullname), ads[i].host, ads[i].port)))
  {
    UpdateAllComplete(store, ads);
    UpdateAllDeduplicates(store, ads);
  }

  /** Two sightings of one id from different hosts store the first endpoint
      and emit a single event. */
  lemma SecondSightingIgnored(store: Store, a1: Advertisement, a2: Advertisement)
    requires Accepted(a1) && Accepted(a2) && KeyOf(a1) == KeyOf(a2) && KeyOf(a1) !in store
    ensures var (s', events) := UpdateAll(store, [a1, a2]);
            && s'.Keys == store.Keys + {KeyOf(a1)}
            && s'[KeyOf(a1)] == Endpoint(DisplayName(a1.fullname), a1.host, a1.port)
            && events == [Found(KeyOf(a1), s'[KeyOf(a1)])]
  {
    var key := KeyOf(a1);
    var ep := Endpoint(DisplayName(a1.fullname), a1.host, a1.port);
    var s1 := store[key := ep];
    assert Update(store, a1) == (s1, [Found(key, ep)]);
    assert Update(s1, a2) == (s1, []);
    assert UpdateAll(s1, []) == (s1, []);
    assert [a2][0] == a2 && [a2][1..] == [];
    assert UpdateAll(s1, [a2]) == (s1, [] + []);
    assert [a1, a2][0] == a1 && [a1, a2][1..] == [a2];
    assert UpdateAll(store, [a1, a2]) == (s1, [Found(key, ep)] + ([] + []));
  }

  /** `getNanoleafDevice` */
  function GetNanoleafDevice(store: Store, id: string): (r: Option<Endpoint>)
    ensures r.Some? <==> id in store
    ensures r.Some? ==> r.value == store[id]
  {
    if id in store then Some(store[id]) else None
  }

  /** An entry of the onboarding list: name, `data.id` and a null token. */
  datatype Candidate = Candidate(name: string, id: string, token: Option<string>)

  /** `list_devices`: one entry per stored id. `order` is the order in which
      the runtime enumerates the store's keys (each exactly once). */
  method ListDevices(store: Store, order: seq<string>) returns (devices: seq<Candidate>)
    requires forall k :: k in store <==> k in order
    requires forall i, j :: 0 <= i < j < |order| ==> order[i] != order[j]
    ensures |devices| == |order|
    ensures forall i :: 0 <= i < |devices| ==>
              devices[i].id in store && devices[i].name == store[devices[i].id].name && devices[i].token == None
    ensures forall i :: 0 <= i < |devices| ==> devices[i].id == order[i]
    ensures forall k :: k in store ==> exists i :: 0 <= i < |devices| && devices[i].id == k
    ensures forall i, j :: 0 <= i < j < |devices| ==> devices[i].id != devices[j].id
  {
    devices := [];
    var n := 0;
    while n < |order|
      invariant 0 <= n <= |order|
      invariant |devices| == n
      invariant forall i :: 0 <= i < n ==> devices[i] == Candidate(store[order[i]].name, order[i], None)
    {
      var id := order[n];
      devices := devices + [Candidate(store[id].name, id, None)];
      n := n + 1;
    }
    forall k | k in store
      ensures exists i :: 0 <= i < |devices| && devices[i].id == k
    {
      var i :| 0 <= i < |order| && order[i] == k;
      assert devices[i].id == k;
    }
  }
}
