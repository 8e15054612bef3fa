/** The daily series that `history` in src/scripts/fetch-market.ts builds from the
    `[timestamp, value]` samples of a market chart: a JavaScript object keyed by day. */
module Series {
  import opened Calendar

  /** One `[ts, value]` pair of the chart: a millisecond timestamp and a price or volume. */
  datatype Sample = Sample(ts: int, value: real)

  /** The two sample arrays of a market chart response. */
  datatype Chart = Chart(prices: seq<Sample>, volumes: seq<Sample>)

  /** A plain JavaScript object used as a dictionary: its own keys in insertion order
      (what Object.keys returns for keys that are not array indices) and its entries. */
  datatype Dict = Dict(keys: seq<string>, vals: map<string, real>) {

    ghost predicate Valid() {
      (forall i, j :: 0 <= i < j < |keys| ==> keys[i] != keys[j])
      && (forall k :: k in vals <==> k in keys)
    }

    /** obj[k] = v: overwrites an existing entry in place, appends a new key at the end. */
    function Put(k: string, v: real): (d: Dict)
      requires Valid()
      ensures d.Valid()
      ensures d.vals == vals[k := v]
      ensures k in keys ==> d.keys == keys
      ensures k !in keys ==> d.keys == keys + [k]
    {
      if k in vals then Dict(keys, vals[k := v]) else Dict(keys + [k], vals[k := v])
    }
  }

  const Empty := Dict([], map[])

  function KeyOf(s: Sample): string {
    FormatDate(s.ts)
  }

  /** The assignments `obj[formatDate(ts)] = v` that forEach performs, in order. */
  function Entries(ss: seq<Sample>): (es: seq<(string, real)>)
    ensures |es| == |ss|
    ensures forall i :: 0 <= i < |ss| ==> es[i] == (KeyOf(ss[i]), ss[i].value)
  {
    seq(|ss|, i requires 0 <= i < |ss| => (KeyOf(ss[i]), ss[i].value))
  }

  /** The object that a sequence of assignments `obj[k] = v` leaves behind. */
  function Assign(es: seq<(string, real)>): (d: Dict)
    ensures d.Valid() && |d.keys| <= |es|
  {
    if es == [] then Empty
    else Assign(es[..|es| - 1]).Put(es[|es| - 1].0, es[|es| - 1].1)
  }

  /** The object that `samples.forEach(([ts, v]) => obj[formatDate(ts)] = v)` leaves behind. */
  function FromSamples(ss: seq<Sample>): (d: Dict)
    ensures d.Valid() && |d.keys| <= |ss|
    ensures forall i :: 0 <= i < |ss| ==> KeyOf(ss[i]) in d.vals
  {
    var es := Entries(ss);
    assert forall i :: 0 <= i < |ss| ==> KeyOf(ss[i]) in Assign(es).vals by {
      forall i | 0 <= i < |ss|
        ensures KeyOf(ss[i]) in Assign(es).vals
      {
        AssignedKeys(es, es[i].0);
      }
    }
    Assign(es)
  }

  /** After a run of assignments the object holds exactly the keys assigned. */
  lemma {:induction false} AssignedKeys(es: seq<(string, real)>, k: string)
    ensures k in Assign(es).vals <==> exists i :: 0 <= i < |es| && es[i].0 == k
  {
    if es != [] {
      var init := es[..|es| - 1];
      AssignedKeys(init, k);
      if exists i :: 0 <= i < |es| && es[i].0 == k {
        var i :| 0 <= i < |es| && es[i].0 == k;
        if i < |init| {
          assert init[i].0 == k;
        }
      }
    }
  }

  /** A key's entry is the value of the last assignment to it. */
  lemma {:induction false} LastAssignmentWins(es: seq<(string, real)>, i: int)
    requires 0 <= i < |es|
    requires forall j :: i < j < |es| ==> es[j].0 != es[i].0
    ensures es[i].0 in Assign(es).vals && Assign(es).vals[es[i].0] == es[i].1
  {
    if i < |es| - 1 {
      LastAssignmentWins(es[..|es| - 1], i);
    }
  }

  /** The object holds a day key exactly when some sample falls on that day. */
  lemma KeysOfSamples(ss: seq<Sample>, k: string)
    ensures k in FromSamples(ss).vals <==> exists i :: 0 <= i < |ss| && KeyOf(ss[i]) == k
  {
    var es := Entries(ss);
    AssignedKeys(es, k);
    if exists i :: 0 <= i < |es| && es[i].0 == k {
      var i :| 0 <= i < |es| && es[i].0 == k;
      assert KeyOf(ss[i]) == k;
    }
  }

  /** The later sample of a day overwrites the earlier: a day's entry is the value of the
      last sample that falls on it. */
  lemma LastSampleWins(ss: seq<Sample>, i: int)
    requires 0 <= i < |ss|
    requires forall j :: i < j < |ss| ==> KeyOf(ss[j]) != KeyOf(ss[i])
    ensures KeyOf(ss[i]) in FromSamples(ss).vals
    ensures FromSamples(ss).vals[KeyOf(ss[i])] == ss[i].value
  {
    LastAssignmentWins(Entries(ss), i);
  }

  /** history(tokenId) after the fetch: the price and volume objects of the chart. */
  method History(chart: Chart) returns (prices: Dict, volumes: Dict)
    ensures prices == FromSamples(chart.prices) && volumes == FromSamples(chart.volumes)
    ensures prices.Valid() && volumes.Valid()
  {
    prices := Empty;
    for i := 0 to |chart.prices|
      invariant prices == FromSamples(chart.prices[..i])
    {
      assert Entries(chart.prices[..i + 1])[..i] == Entries(chart.prices[..i]);
      prices := prices.Put(KeyOf(chart.prices[i]), chart.prices[i].value);
    }
    assert chart.prices[..|chart.prices|] == chart.prices;
    volumes := Empty;
    for i := 0 to |chart.volumes|
      invariant volumes == FromSamples(chart.volumes[..i])
    {
      assert Entries(chart.volumes[..i + 1])[..i] == Entries(chart.volumes[..i]);
      volumes := volumes.Put(KeyOf(chart.volumes[i]), chart.volumes[i].value);
    }
    assert chart.volumes[..|chart.volumes|] == chart.volumes;
  }
}
