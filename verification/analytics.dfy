/** The body of the dashboard's `update_metrics` after the read: the stat
    cards, the hourly series, the per-location counts and the two top-ten
    rankings, each a pure function of the records read back. Figures are not
    modelled, only the tables they are drawn from. */
module Analytics {
  import opened Seqs
  import opened Text
  import opened Json
  import opened Records
  import opened EventLog
  import opened LogReader

  // ---------------------------------------------------------------------
  // The order pandas sorts values by

  /** Code-point lexicographic order: a proper prefix sorts first. */
  predicate StrLess(a: string, b: string)
    decreases |a|
  {
    |b| > 0 && (|a| == 0 || a[0] < b[0] || (a[0] == b[0] && StrLess(a[1..], b[1..])))
  }

  lemma {:induction false} StrLessIrreflexive(a: string)
    ensures !StrLess(a, a)
    decreases |a|
  {
    if |a| > 0 {
      StrLessIrreflexive(a[1..]);
    }
  }

  lemma {:induction false} StrLessTransitive(a: string, b: string, c: string)
    requires StrLess(a, b) && StrLess(b, c)
    ensures StrLess(a, c)
    decreases |a|
  {
    if |a| > 0 && a[0] == b[0] && b[0] == c[0] {
      StrLessTransitive(a[1..], b[1..], c[1..]);
    }
  }

  lemma {:induction false} StrLessTotal(a: string, b: string)
    requires a != b
    ensures StrLess(a, b) || StrLess(b, a)
    decreases |a|
  {
    if |a| > 0 && |b| > 0 && a[0] == b[0] {
      assert a == [a[0]] + a[1..] && b == [b[0]] + b[1..];
      StrLessTotal(a[1..], b[1..]);
    }
  }

  function Rank(v: Value): nat {
    match v
    case Null => 0
    case Num(_) => 1
    case Str(_) => 2
  }

  /** The sort order of column values: numbers by value, strings by code
      point, and numbers before strings. */
  predicate ValueLess(a: Value, b: Value) {
    if Rank(a) != Rank(b) then Rank(a) < Rank(b)
    else
      match a
      case Null => false
      case Num(x) => x < b.n
      case Str(s) => StrLess(s, b.text)
  }

  lemma ValueLessIrreflexive(a: Value)
    ensures !ValueLess(a, a)
  {
    if a.Str? {
      StrLessIrreflexive(a.text);
    }
  }

  lemma ValueLessTransitive(a: Value, b: Value, c: Value)
    requires ValueLess(a, b) && ValueLess(b, c)
    ensures ValueLess(a, c)
  {
    if a.Str? && b.Str? && c.Str? {
      StrLessTransitive(a.text, b.text, c.text);
    }
  }

  lemma ValueLessTotal(a: Value, b: Value)
    requires a != b
    ensures ValueLess(a, b) || ValueLess(b, a)
  {
    if a.Str? && b.Str? {
      StrLessTotal(a.text, b.text);
    }
  }

  // ---------------------------------------------------------------------
  // Ranking values by frequency

  /** Where `a` stands before `b` when the values of `xs` are ranked: it
      occurs more often, or as often and sorts first. */
  predicate RanksBefore(xs: seq<Value>, a: Value, b: Value) {
    Count(xs, a) > Count(xs, b) || (Count(xs, a) == Count(xs, b) && ValueLess(a, b))
  }

  lemma RanksBeforeIrreflexive(xs: seq<Value>, a: Value)
    ensures !RanksBefore(xs, a, a)
  {
    ValueLessIrreflexive(a);
  }

  lemma RanksBeforeTransitive(xs: seq<Value>, a: Value, b: Value, c: Value)
    requires RanksBefore(xs, a, b) && RanksBefore(xs, b, c)
    ensures RanksBefore(xs, a, c)
  {
    if Count(xs, a) == Count(xs, b) == Count(xs, c) {
      ValueLessTransitive(a, b, c);
    }
  }

  lemma RanksBeforeTotal(xs: seq<Value>, a: Value, b: Value)
    requires a != b
    ensures RanksBefore(xs, a, b) || RanksBefore(xs, b, a)
  {
    ValueLessTotal(a, b);
  }

  /** The candidate ranked first among `cands`. */
  function BestOf(xs: seq<Value>, cands: seq<Value>): (b: Value)
    requires |cands| > 0
    ensures b in cands
    ensures forall c :: c in cands && c != b ==> RanksBefore(xs, b, c)
  {
    if |cands| == 1 then cands[0]
    else
      var rest := BestOf(xs, cands[1..]);
      BestOfStep(xs, cands, rest);
      if RanksBefore(xs, cands[0], rest) then cands[0] else rest
  }

  lemma BestOfStep(xs: seq<Value>, cands: seq<Value>, rest: Value)
    requires |cands| > 1
    requires rest in cands[1..]
    requires forall c :: c in cands[1..] && c != rest ==> RanksBefore(xs, rest, c)
    ensures var b := if RanksBefore(xs, cands[0], rest) then cands[0] else rest;
            forall c :: c in cands && c != b ==> RanksBefore(xs, b, c)
  {
    assert cands == [cands[0]] + cands[1..];
    if RanksBefore(xs, cands[0], rest) {
      forall c | c in cands[1..] && c != cands[0]
        ensures RanksBefore(xs, cands[0], c)
      {
        if c != rest {
          RanksBeforeTransitive(xs, cands[0], rest, c);
        }
      }
    } else if cands[0] != rest {
      RanksBeforeTotal(xs, cands[0], rest);
    }
  }

  /** The non-null entries of a column, in order: what pandas keeps before
      counting. */
  function NonNull(xs: seq<Value>): (r: seq<Value>)
    ensures Null !in r
    ensures |r| <= |xs|
    ensures forall v :: v != Null ==> Count(r, v) == Count(xs, v)
    ensures forall v :: v in r <==> v in xs && v != Null
  {
    if |xs| == 0 then []
    else
      var rest := NonNull(xs[1..]);
      assert xs == [xs[0]] + xs[1..];
      if xs[0] == Null then rest
      else
        assert ([xs[0]] + rest)[1..] == rest;
        [xs[0]] + rest
  }

  /** What `mode()[0]` returns: a non-null value of greatest frequency, and
      the least one in sort order among those of that frequency. */
  predicate IsMode(xs: seq<Value>, m: Value) {
    && m != Null
    && m in xs
    && forall v :: v in xs && v != Null && v != m ==> RanksBefore(xs, m, v)
  }

  /** `series.mode()[0]`; None when the column holds nothing but nulls, where
      the mode is empty and indexing it raises. */
  function Mode(xs: seq<Value>): (r: Option<Value>)
    ensures r.None? <==> forall v :: v in xs ==> v == Null
    ensures r.Some? ==> IsMode(xs, r.value)
  {
    var nn := NonNull(xs);
    if |nn| == 0 then None
    else
      var b := BestOf(nn, Dedup(nn));
      ModeOfNonNull(xs, nn, b);
      Some(b)
  }

  lemma ModeOfNonNull(xs: seq<Value>, nn: seq<Value>, b: Value)
    requires nn == NonNull(xs) && |nn| > 0
    requires b in Dedup(nn)
    requires forall c :: c in Dedup(nn) && c != b ==> RanksBefore(nn, b, c)
    ensures IsMode(xs, b)
  {
    var d := Dedup(nn);
    var k :| 0 <= k < |d| && d[k] == b;
    assert b in nn;
    forall v | v in xs && v != Null && v != b
      ensures RanksBefore(xs, b, v)
    {
      var i :| 0 <= i < |nn| && nn[i] == v;
      assert v in d;
    }
  }

  /** Two values cannot both be the mode. */
  lemma ModeUnique(xs: seq<Value>, a: Value, b: Value)
    requires IsMode(xs, a) && IsMode(xs, b)
    ensures a == b
  {
    if a != b {
      RanksBeforeTransitive(xs, a, b, a);
      RanksBeforeIrreflexive(xs, a);
      assert false;
    }
  }

  /** `Mode` returns exactly the value the definition of the mode picks out. */
  lemma ModeCharacterized(xs: seq<Value>, m: Value)
    ensures Mode(xs) == Some(m) <==> IsMode(xs, m)
  {
    if IsMode(xs, m) {
      assert m in xs && m != Null;
      ModeUnique(xs, Mode(xs).value, m);
    }
  }

  // ---------------------------------------------------------------------
  // groupby(...).size().nlargest(n)

  function Without(keys: seq<Value>, b: Value): (r: seq<Value>)
    ensures forall v :: v in r <==> v in keys && v != b
    ensures b !in keys ==> r == keys
    ensures Distinct(keys) ==> Distinct(r)
    ensures Distinct(keys) && b in keys ==> |r| == |keys| - 1
  {
    if |keys| == 0 then []
    else
      var rest := Without(keys[1..], b);
      assert keys == [keys[0]] + keys[1..];
      if keys[0] == b then rest
      else
        assert Distinct(keys) ==> keys[0] !in keys[1..];
        [keys[0]] + rest
  }

  /** The `n` keys ranked first, each with its frequency in `xs`: the table
      `nlargest(n)` leaves, highest count first and ties in key order. */
  function Top(xs: seq<Value>, keys: seq<Value>, n: nat): (t: seq<(Value, nat)>)
    requires Distinct(keys)
    ensures |t| == if n <= |keys| then n else |keys|
    ensures forall i :: 0 <= i < |t| ==> t[i].0 in keys && t[i].1 == Count(xs, t[i].0)
    ensures forall i, j :: 0 <= i < j < |t| ==> RanksBefore(xs, t[i].0, t[j].0)
    ensures forall k :: k in keys && k !in KeyColumn(t) ==>
              forall i :: 0 <= i < |t| ==> RanksBefore(xs, t[i].0, k)
    decreases n
  {
    if n == 0 || |keys| == 0 then []
    else
      var b := BestOf(xs, keys);
      var rest := Top(xs, Without(keys, b), n - 1);
      var t := [(b, Count(xs, b))] + rest;
      assert t[1..] == rest;
      assert KeyColumn(t) == [b] + KeyColumn(rest);
      t
  }

  /** A top-n table with its promise as the dashboard states it: one row per
      distinct value up to `n`, each count the value's frequency, rows in
      rank order (count descending, ties by `ValueLess`), and every value
      left out ranking below every row. */
  function Largest(xs: seq<Value>, n: nat): (t: seq<(Value, nat)>)
    ensures |t| == if n <= |Dedup(xs)| then n else |Dedup(xs)|
    ensures |t| <= n && |t| <= |xs|
    ensures |xs| > 0 && n > 0 ==> |t| > 0
    ensures forall i :: 0 <= i < |t| ==> t[i].0 in xs && t[i].1 == Count(xs, t[i].0)
    ensures forall i, j :: 0 <= i < j < |t| ==> RanksBefore(xs, t[i].0, t[j].0)
    ensures forall i, j :: 0 <= i < j < |t| ==> t[i].1 >= t[j].1
    ensures forall v :: v in xs && v !in KeyColumn(t) ==>
              forall i :: 0 <= i < |t| ==> RanksBefore(xs, t[i].0, v)
    ensures forall v :: v in xs && v !in KeyColumn(t) ==> forall i :: 0 <= i < |t| ==> Count(xs, v) <= t[i].1
  {
    var keys := Dedup(xs);
    var t := Top(xs, keys, n);
    DedupSize(xs);
    DedupCovers(xs);
    RankedCounts(xs, keys, t);
    t
  }

  /** Ranking a table of frequencies orders its counts, and a value ranked
      below every row occurs no more often than any of them; rows drawn from
      values of `xs` are values of `xs`. */
  lemma RankedCounts(xs: seq<Value>, keys: seq<Value>, t: seq<(Value, nat)>)
    requires forall i :: 0 <= i < |t| ==> t[i].1 == Count(xs, t[i].0)
    requires forall i, j :: 0 <= i < j < |t| ==> RanksBefore(xs, t[i].0, t[j].0)
    requires forall k :: k in keys && k !in KeyColumn(t) ==>
               forall i :: 0 <= i < |t| ==> RanksBefore(xs, t[i].0, k)
    requires forall v :: v in xs ==> v in keys
    requires forall i :: 0 <= i < |t| ==> t[i].0 in keys
    requires forall i :: 0 <= i < |keys| ==> keys[i] in xs
    ensures forall i :: 0 <= i < |t| ==> t[i].0 in xs
    ensures forall i, j :: 0 <= i < j < |t| ==> t[i].1 >= t[j].1
    ensures forall v :: v in xs && v !in KeyColumn(t) ==>
              forall i :: 0 <= i < |t| ==> RanksBefore(xs, t[i].0, v) && Count(xs, v) <= t[i].1
  {
  }

  // ---------------------------------------------------------------------
  // Columns of the frame

  /** One column of the frame built from `recs`. */
  function Column<V>(recs: seq<Record>, f: Record -> V): (c: seq<V>)
    ensures |c| == |recs|
    ensures forall i :: 0 <= i < |recs| ==> c[i] == f(recs[i])
  {
    if |recs| == 0 then [] else [f(recs[0])] + Column(recs[1..], f)
  }

  function IpOf(r: Record): string { r.ipAddress }
  function UsernameOf(r: Record): Value { r.username }
  function CountryOf(r: Record): Value { r.country }
  function CityOf(r: Record): Value { r.city }
  function AgentOf(r: Record): Value { Str(r.userAgent) }
  function LocationOf(r: Record): (Value, Value) { (r.country, r.city) }

  // ---------------------------------------------------------------------
  // Hourly buckets

  function Hour(t: nat): nat { t / 3600 }

  function MinOf(xs: seq<nat>): (m: nat)
    requires |xs| > 0
    ensures m in xs
    ensures forall x :: x in xs ==> m <= x
  {
    if |xs| == 1 then xs[0]
    else
      var rest := MinOf(xs[1..]);
      assert xs == [xs[0]] + xs[1..];
      if xs[0] <= rest then xs[0] else rest
  }

  function MaxOf(xs: seq<nat>): (m: nat)
    requires |xs| > 0
    ensures m in xs
    ensures forall x :: x in xs ==> x <= m
  {
    if |xs| == 1 then xs[0]
    else
      var rest := MaxOf(xs[1..]);
      assert xs == [xs[0]] + xs[1..];
      if xs[0] >= rest then xs[0] else rest
  }

  /** The hours `lo`, `lo + 1`, ..., `hi`. */
  function Span(lo: nat, hi: nat): (s: seq<nat>)
    requires lo <= hi
    ensures |s| == hi - lo + 1
    ensures forall i :: 0 <= i < |s| ==> s[i] == lo + i
    decreases hi - lo
  {
    if lo == hi then [lo] else [lo] + Span(lo + 1, hi)
  }

  function HourOf(r: Record): nat { Hour(r.timestamp) }

  /** `groupby(pd.Grouper(key='timestamp', freq='1H')).size()`: one bucket
      per hour from the earliest attempt's hour to the latest one's, empty
      hours included with count 0, each holding the attempts of its hour. */
  function Hourly(recs: seq<Record>): (buckets: seq<(nat, nat)>)
    ensures |recs| == 0 <==> buckets == []
    ensures |recs| > 0 ==>
              && buckets[0].0 == MinOf(Column(recs, HourOf))
              && buckets[|buckets| - 1].0 == MaxOf(Column(recs, HourOf))
              && (forall i :: 0 <= i < |buckets| ==> buckets[i].0 == buckets[0].0 + i)
    ensures forall i :: 0 <= i < |buckets| ==> buckets[i].1 == Count(Column(recs, HourOf), buckets[i].0)
  {
    if |recs| == 0 then []
    else
      var hours := Column(recs, HourOf);
      Tally(hours, Span(MinOf(hours), MaxOf(hours)))
  }

  /** Every attempt lands in exactly one bucket: the counts add up to the
      number of records. */
  lemma HourlyCoversAll(recs: seq<Record>)
    ensures Sum(Hourly(recs)) == |recs|
  {
    if |recs| == 0 {
    } else {
      var hours := Column(recs, HourOf);
      var lo := MinOf(hours);
      var hi := MaxOf(hours);
      var span := Span(lo, hi);
      forall i | 0 <= i < |hours|
        ensures hours[i] in span
      {
        assert hours[i] in hours;
        assert span[hours[i] - lo] == hours[i];
      }
      TallyCoversAll(hours, span);
    }
  }

  // ---------------------------------------------------------------------
  // Per-location counts

  /** The (country, city) keys of the records whose country and city are
      both set; `groupby` drops the rows with a null key. */
  function GeoPairs(recs: seq<Record>): (p: seq<(Value, Value)>)
    ensures |p| <= |recs|
    ensures forall i :: 0 <= i < |p| ==> p[i].0 != Null && p[i].1 != Null
    ensures (forall i :: 0 <= i < |recs| ==> recs[i].country != Null && recs[i].city != Null)
            ==> |p| == |recs|
    ensures forall i :: 0 <= i < |recs| && recs[i].country != Null && recs[i].city != Null
              ==> (recs[i].country, recs[i].city) in p
  {
    if |recs| == 0 then []
    else
      var rest := GeoPairs(recs[1..]);
      assert forall i :: 1 <= i < |recs| ==> recs[i] == recs[1..][i - 1];
      if recs[0].country != Null && recs[0].city != Null then
        [(recs[0].country, recs[0].city)] + rest
      else rest
  }

  /** A location with both fields set occurs among the pairs exactly as often
      as it occurs in the frame's (country, city) column: `GeoPairs` drops
      only the rows with a null field. */
  lemma {:induction false} GeoPairsCount(recs: seq<Record>, k: (Value, Value))
    requires k.0 != Null && k.1 != Null
    ensures Count(GeoPairs(recs), k) == Count(Column(recs, LocationOf), k)
  {
    if |recs| > 0 {
      GeoPairsCount(recs[1..], k);
      var c := Column(recs, LocationOf);
      assert c[1..] == Column(recs[1..], LocationOf);
      var p := GeoPairs(recs);
      if p != GeoPairs(recs[1..]) {
        assert p[1..] == GeoPairs(recs[1..]);
      }
    }
  }

  /** `groupby(['country', 'city']).size()`: each location once, with the
      number of attempts from it. */
  function GeoCounts(recs: seq<Record>): (t: seq<((Value, Value), nat)>)
    ensures Distinct(KeyColumn(t))
    ensures forall i :: 0 <= i < |t| ==> t[i].1 == Count(GeoPairs(recs), t[i].0) && t[i].1 > 0
    ensures forall i :: 0 <= i < |recs| && recs[i].country != Null && recs[i].city != Null
              ==> (recs[i].country, recs[i].city) in KeyColumn(t)
    ensures forall i :: 0 <= i < |t| ==> t[i].1 == Count(Column(recs, LocationOf), t[i].0)
  {
    var pairs := GeoPairs(recs);
    var keys := Dedup(pairs);
    TallyKeys(pairs, keys);
    DedupCovers(pairs);
    var t := Tally(pairs, keys);
    forall i | 0 <= i < |t| ensures t[i].1 == Count(Column(recs, LocationOf), t[i].0) {
      assert t[i].0 == keys[i];
      GeoPairsCount(recs, t[i].0);
    }
    t
  }

  /** The location counts add up to the attempts with both fields set, and
      so to the total when no record lacks a location. */
  lemma GeoCountsCoverAll(recs: seq<Record>)
    ensures Sum(GeoCounts(recs)) == |GeoPairs(recs)|
  {
    var pairs := GeoPairs(recs);
    TallyCoversAll(pairs, Dedup(pairs));
  }
  // ---------------------------------------------------------------------
  // One refresh of the dashboard

  /** How many rows the two top tables keep. */
  const TopN := 10

  /** What a refresh computes: nothing to show, a refresh that raises (a mode
      taken over a column with no value), or the metrics. */
  datatype Snapshot =
    | NoData
    | Failed
    | Metrics(total: nat, uniqueIps: nat, username: Value, city: Value, country: Value,
              hourly: seq<(nat, nat)>, geo: seq<((Value, Value), nat)>,
              topUsernames: seq<(Value, nat)>, topAgents: seq<(Value, nat)>)

  function Aggregate(recs: seq<Record>): (s: Snapshot)
    ensures s.NoData? <==> |recs| == 0
    ensures s.Failed? <==>
              (&& |recs| > 0
               && (|| (forall i :: 0 <= i < |recs| ==> recs[i].username == Null)
                   || (forall i :: 0 <= i < |recs| ==> recs[i].city == Null)
                   || (forall i :: 0 <= i < |recs| ==> recs[i].country == Null)))
    ensures s.Metrics? ==>
              && s.total == |recs|
              && s.uniqueIps == |set ip | ip in Column(recs, IpOf)|
              && 1 <= s.uniqueIps <= s.total
              && IsMode(Column(recs, UsernameOf), s.username)
              && IsMode(Column(recs, CityOf), s.city)
              && IsMode(Column(recs, CountryOf), s.country)
              && s.hourly == Hourly(recs) && Sum(s.hourly) == s.total
              && s.geo == GeoCounts(recs) && Sum(s.geo) == |GeoPairs(recs)|
              && s.topUsernames == Largest(NonNull(Column(recs, UsernameOf)), TopN)
              && s.topAgents == Largest(Column(recs, AgentOf), TopN)
  {
    if |recs| == 0 then NoData
    else
      var users := Mode(Column(recs, UsernameOf));
      var cities := Mode(Column(recs, CityOf));
      var countries := Mode(Column(recs, CountryOf));
      ModesPresent(recs);
      if users.Some? && cities.Some? && countries.Some? then
        Summary(recs, users.value, cities.value, countries.value)
      else Failed
  }

  /** The metrics of a non-empty frame, given its three modes. */
  function Summary(recs: seq<Record>, user: Value, city: Value, country: Value): (s: Snapshot)
    requires |recs| > 0
    ensures s.Metrics?
    ensures s.total == |recs| && s.username == user && s.city == city && s.country == country
    ensures s.uniqueIps == |set ip | ip in Column(recs, IpOf)| && 1 <= s.uniqueIps <= s.total
    ensures s.hourly == Hourly(recs) && Sum(s.hourly) == s.total
    ensures s.geo == GeoCounts(recs) && Sum(s.geo) == |GeoPairs(recs)|
    ensures s.topUsernames == Largest(NonNull(Column(recs, UsernameOf)), TopN)
    ensures s.topAgents == Largest(Column(recs, AgentOf), TopN)
  {
    var ips := Column(recs, IpOf);
    DedupCountsDistinct(ips);
    HourlyCoversAll(recs);
    GeoCountsCoverAll(recs);
    Metrics(|recs|, |Dedup(ips)|, user, city, country, Hourly(recs), GeoCounts(recs),
            Largest(NonNull(Column(recs, UsernameOf)), TopN), Largest(Column(recs, AgentOf), TopN))
  }

  /** The three modes exist exactly when none of their columns is all null. */
  lemma ModesPresent(recs: seq<Record>)
    ensures (&& Mode(Column(recs, UsernameOf)).Some?
             && Mode(Column(recs, CityOf)).Some?
             && Mode(Column(recs, CountryOf)).Some?)
            <==> !(|| (forall i :: 0 <= i < |recs| ==> recs[i].username == Null)
                   || (forall i :: 0 <= i < |recs| ==> recs[i].city == Null)
                   || (forall i :: 0 <= i < |recs| ==> recs[i].country == Null))
  {
    AllNullColumn(recs, Column(recs, UsernameOf), UsernameOf);
    AllNullColumn(recs, Column(recs, CityOf), CityOf);
    AllNullColumn(recs, Column(recs, CountryOf), CountryOf);
  }

  /** A column has no value exactly when every record's field is null. */
  lemma AllNullColumn(recs: seq<Record>, col: seq<Value>, f: Record -> Value)
    requires col == Column(recs, f)
    ensures (forall v :: v in col ==> v == Null) <==> forall i :: 0 <= i < |recs| ==> f(recs[i]) == Null
  {
    if forall i :: 0 <= i < |recs| ==> f(recs[i]) == Null {
      forall v | v in col
        ensures v == Null
      {
        var i :| 0 <= i < |col| && col[i] == v;
        assert col[i] == f(recs[i]);
      }
    } else {
      var i :| 0 <= i < |recs| && f(recs[i]) != Null;
      assert col[i] in col && col[i] != Null;
    }
  }

  /** The four stat cards: total, unique addresses, username, location. */
  datatype StatCards = StatCards(total: string, uniqueIps: string, username: string, location: string)

  /** How a mode shows on its card. */
  function Display(v: Value): string {
    match v
    case Str(s) => s
    case Num(n) => IntText(n)
    case Null => "None"
  }

  /** The cards a refresh returns; None when it raised, so that nothing is
      updated. The location card pairs the mode of the cities with the mode
      of the countries, each taken on its own. */
  function Cards(s: Snapshot): (c: Option<StatCards>)
    ensures s.Failed? <==> c.None?
    ensures s.NoData? ==> c == Some(StatCards("0", "0", "None", "None"))
    ensures s.Metrics? ==>
              && CanonicalDigits(c.value.total) && DigitsValue(c.value.total) == s.total
              && CanonicalDigits(c.value.uniqueIps) && DigitsValue(c.value.uniqueIps) == s.uniqueIps
              && c.value.username == Display(s.username)
              && c.value.location == Display(s.city) + ", " + Display(s.country)
  {
    match s
    case NoData => Some(StatCards("0", "0", "None", "None"))
    case Failed => None
    case Metrics(total, unique, user, city, country, _, _, _, _) =>
      Some(StatCards(NatText(total), NatText(unique), Display(user),
                     Display(city) + ", " + Display(country)))
  }

  /** One refresh: read the log file (None when it does not exist) and
      compute the cards. It raises exactly when some records were read and
      one of the three mode columns holds no value; with no record it shows
      zeros; otherwise the first two cards count the records and their
      distinct addresses. */
  function Refresh(file: Option<Log>): (c: Option<StatCards>)
    ensures var recs := ReadLog(file);
            c.None? <==>
              (&& |recs| > 0
               && (|| (forall i :: 0 <= i < |recs| ==> recs[i].username == Null)
                   || (forall i :: 0 <= i < |recs| ==> recs[i].city == Null)
                   || (forall i :: 0 <= i < |recs| ==> recs[i].country == Null)))
    ensures ReadLog(file) == [] ==> c == Some(StatCards("0", "0", "None", "None"))
    ensures var recs := ReadLog(file);
            c.Some? && |recs| > 0 ==>
              && c.value.total == NatText(|recs|)
              && c.value.uniqueIps == NatText(|set ip | ip in Column(recs, IpOf)|)
  {
    var recs := ReadLog(file);
    var s := Aggregate(recs);
    assert s.NoData? <==> |recs| == 0;
    Cards(s)
  }

  /** A missing log, or one with no readable record, shows the zero cards. */
  lemma EmptyLogCards(file: Option<Log>)
    requires file.None? || ReadLog(file) == []
    ensures Refresh(file) == Some(StatCards("0", "0", "None", "None"))
  {
  }

  // ---------------------------------------------------------------------
  // Worked cases

  /** A tie goes to the least value, not to the one seen first. */
  lemma ModeTieGoesToLeast()
    ensures Mode([Str("root"), Str("admin")]) == Some(Str("admin"))
  {
    var xs := [Str("root"), Str("admin")];
    assert Count(xs, Str("admin")) == 1 && Count(xs, Str("root")) == 1;
    assert StrLess("admin", "root");
    assert IsMode(xs, Str("admin"));
    ModeCharacterized(xs, Str("admin"));
  }

  /** The location card can name a place no attempt came from: four attempts
      from (A, Y), (A, X), (B, Z) and (C, Z). */
  const ExampleCities := [Str("A"), Str("A"), Str("B"), Str("C")]
  const ExampleCountries := [Str("Y"), Str("X"), Str("Z"), Str("Z")]

  /** The city "A" and the country "Z" are each their column's mode, but no
      attempt came from both. */
  lemma LocationMayPairUnseen()
    ensures Mode(ExampleCities) == Some(Str("A")) && Mode(ExampleCountries) == Some(Str("Z"))
    ensures forall i :: 0 <= i < |ExampleCities| ==>
              !(ExampleCities[i] == Str("A") && ExampleCountries[i] == Str("Z"))
  {
    ExampleNeverPairs();
    CityModeOfExample();
    CountryModeOfExample();
  }

  lemma ExampleNeverPairs()
    ensures forall i :: 0 <= i < |ExampleCities| ==>
              !(ExampleCities[i] == Str("A") && ExampleCountries[i] == Str("Z"))
  {
    assert ExampleCountries[0] != Str("Z") && ExampleCountries[1] != Str("Z");
    assert ExampleCities[2] != Str("A") && ExampleCities[3] != Str("A");
  }

  lemma CityModeOfExample()
    ensures Mode(ExampleCities) == Some(Str("A"))
  {
    var cities := ExampleCities;
    assert Count(cities, Str("A")) == 2;
    assert StrLess("A", "B") && StrLess("A", "C");
    assert IsMode(cities, Str("A"));
    ModeCharacterized(cities, Str("A"));
  }

  lemma CountryModeOfExample()
    ensures Mode(ExampleCountries) == Some(Str("Z"))
  {
    var countries := ExampleCountries;
    assert Count(countries[3..], Str("Z")) == 1;
    assert countries[2..][1..] == countries[3..];
    assert Count(countries[2..], Str("Z")) == 2;
    assert countries[1..][1..] == countries[2..];
    assert Count(countries, Str("Z")) == 2;
    assert IsMode(countries, Str("Z"));
    ModeCharacterized(countries, Str("Z"));
  }
}
