/** `cleanup-sql-metadata`: counts the query texts of all `MariaDB Query`
    records, takes the texts seen more than once among the 10,000 most
    common, and for each keeps the first listed record, deletes the others
    and stores the number of records the text had. */
module Cleanup {
  import opened Sequences
  import opened MariaDBQuery

  /** The argument of `Counter.most_common`. */
  const CandidateLimit: nat := 10000

  type Name = string

  /** The `MariaDB Query` records by name, and the order the store lists
      their names in. The listing order is whatever the store returns; the
      model assumes only that it lists every record once and that deleting
      records does not reorder the others. */
  datatype Db = Db(records: map<Name, QueryRecord>, listing: seq<Name>)

  predicate WellFormed(db: Db) {
    && NoDup(db.listing)
    && (forall n :: n in db.listing ==> n in db.records)
    && (forall n :: n in db.records ==> n in db.listing)
  }

  predicate Listed(records: map<Name, QueryRecord>, listing: seq<Name>) {
    forall n :: n in listing ==> n in records
  }

  /** The text of every `MariaDB Query` record, in listing order. */
  function Texts(records: map<Name, QueryRecord>, listing: seq<Name>): (r: seq<string>)
    requires Listed(records, listing)
    ensures |r| == |listing|
    ensures forall i :: 0 <= i < |listing| ==> r[i] == records[listing[i]].query
  {
    if |listing| == 0 then []
    else [records[listing[0]].query] + Texts(records, listing[1..])
  }

  /** The names of the records whose text is `q`, in listing order. Texts
      are compared exactly. */
  function NamesWith(records: map<Name, QueryRecord>, listing: seq<Name>, q: string): (r: seq<Name>)
    requires Listed(records, listing)
    ensures forall n :: n in r <==> n in listing && records[n].query == q
    ensures NoDup(listing) ==> NoDup(r)
  {
    if |listing| == 0 then []
    else if records[listing[0]].query == q then [listing[0]] + NamesWith(records, listing[1..], q)
    else NamesWith(records, listing[1..], q)
  }

  /** How many records have text `q`. */
  function Occurrences(db: Db, q: string): nat
    requires WellFormed(db)
  {
    |NamesWith(db.records, db.listing, q)|
  }

  /** The Counter's count of a text is the number of records with that text. */
  lemma {:induction false} CounterCounts(records: map<Name, QueryRecord>, listing: seq<Name>, q: string)
    requires Listed(records, listing)
    ensures multiset(Texts(records, listing))[q] == |NamesWith(records, listing, q)|
  {
    if |listing| > 0 {
      var head := records[listing[0]].query;
      var rest := Texts(records, listing[1..]);
      CounterCounts(records, listing[1..], q);
      assert Texts(records, listing) == [head] + rest;
      assert multiset([head] + rest) == multiset{head} + multiset(rest);
    }
  }

  /** The most common texts first. */
  function ByFrequency(texts: seq<string>): string -> int {
    (t: string) => 0 - (multiset(texts)[t] as int)
  }

  /** Where a text is first seen: `Counter` keeps its keys in that order,
      and `most_common` breaks ties by it. */
  function FirstSeen(texts: seq<string>): string -> int {
    (t: string) => if t in texts then IndexOf(texts, t) as int else |texts|
  }

  /** Every distinct text, stably sorted by descending count. */
  function Ranking(texts: seq<string>): seq<string> {
    SortByKey(Distinct(texts), ByFrequency(texts))
  }

  /** The ranking lists each text once, most common first, and texts seen
      equally often in the order they were first seen. */
  lemma RankingOrder(texts: seq<string>)
    ensures NoDup(Ranking(texts))
    ensures forall t :: t in Ranking(texts) <==> t in texts
    ensures SortedBy(Ranking(texts), ByFrequency(texts))
    ensures TiesBy(Ranking(texts), ByFrequency(texts), FirstSeen(texts))
  {
    var d := Distinct(texts);
    SortByKeyNoDup(d, ByFrequency(texts));
    SortByKeySorted(d, ByFrequency(texts));
    DistinctFirstSeenOrder(texts);
    assert IncreasingBy(d, FirstSeen(texts)) by {
      forall i, j | 0 <= i < j < |d|
        ensures FirstSeen(texts)(d[i]) < FirstSeen(texts)(d[j])
      {
        assert d[i] in texts && d[j] in texts;
      }
    }
    SortByKeyStable(d, ByFrequency(texts), FirstSeen(texts));
  }

  /** Within the first `m` texts of a ranking, counts never increase, and
      texts counted equally keep their first-seen order. */
  lemma RankingPrefixOrdered(texts: seq<string>, ranked: seq<string>, m: nat)
    requires m <= |ranked|
    requires SortedBy(ranked, ByFrequency(texts)) && TiesBy(ranked, ByFrequency(texts), FirstSeen(texts))
    ensures forall i, j :: 0 <= i < j < m ==> multiset(texts)[ranked[i]] >= multiset(texts)[ranked[j]]
    ensures forall i, j :: 0 <= i < j < m && multiset(texts)[ranked[i]] == multiset(texts)[ranked[j]] ==>
      FirstSeen(texts)(ranked[i]) < FirstSeen(texts)(ranked[j])
  {
    var key := ByFrequency(texts);
    forall i, j | 0 <= i < j < m
      ensures multiset(texts)[ranked[i]] >= multiset(texts)[ranked[j]]
    {
      assert key(ranked[i]) <= key(ranked[j]);
    }
  }

  /** Every text in the first `m` of a ranking is counted more often than
      any text left out, or as often and seen earlier. */
  lemma RankingPrefixCut(texts: seq<string>, ranked: seq<string>, m: nat)
    requires m <= |ranked| && NoDup(ranked) && forall t :: t in texts ==> t in ranked
    requires SortedBy(ranked, ByFrequency(texts)) && TiesBy(ranked, ByFrequency(texts), FirstSeen(texts))
    ensures forall s, t :: s in ranked[..m] && t in texts && t !in ranked[..m] ==>
      || multiset(texts)[s] > multiset(texts)[t]
      || (multiset(texts)[s] == multiset(texts)[t] && FirstSeen(texts)(s) < FirstSeen(texts)(t))
  {
    var key := ByFrequency(texts);
    var rank := FirstSeen(texts);
    PrefixRanksFirst(ranked, m, key, rank);
    forall s, t | s in ranked[..m] && t in texts && t !in ranked[..m]
      ensures || multiset(texts)[s] > multiset(texts)[t]
              || (multiset(texts)[s] == multiset(texts)[t] && rank(s) < rank(t))
    {
      assert key(s) < key(t) || (key(s) == key(t) && rank(s) < rank(t));
    }
  }

  /** The first `n` texts of the ranking. */
  function TopRanked(texts: seq<string>, n: nat): seq<string> {
    var ranked := Ranking(texts);
    ranked[..if |ranked| <= n then |ranked| else n]
  }

  /** What `most_common(n)` promises, proved of the ranking's first `n` texts. */
  lemma TopRankedOrder(texts: seq<string>, n: nat)
    ensures var r := TopRanked(texts, n);
      && NoDup(r)
      && (forall t :: t in r ==> t in texts)
      && |r| == (if |Distinct(texts)| <= n then |Distinct(texts)| else n)
      && (|r| < n ==> forall t :: t in texts ==> t in r)
      && (forall i, j :: 0 <= i < j < |r| ==> multiset(texts)[r[i]] >= multiset(texts)[r[j]])
      && (forall i, j :: 0 <= i < j < |r| && multiset(texts)[r[i]] == multiset(texts)[r[j]] ==>
            FirstSeen(texts)(r[i]) < FirstSeen(texts)(r[j]))
      && (forall s, t :: s in r && t in texts && t !in r ==>
            || multiset(texts)[s] > multiset(texts)[t]
            || (multiset(texts)[s] == multiset(texts)[t] && FirstSeen(texts)(s) < FirstSeen(texts)(t)))
  {
    var ranked := Ranking(texts);
    RankingOrder(texts);
    var m := if |ranked| <= n then |ranked| else n;
    RankingPrefixOrdered(texts, ranked, m);
    RankingPrefixCut(texts, ranked, m);
    var r := ranked[..m];
    assert r == TopRanked(texts, n);
    assert forall i :: 0 <= i < m ==> r[i] == ranked[i];
    assert NoDup(r);
    assert r == ranked || m == n;
  }

  /** The Counter's `most_common(n)`: the `n` most common distinct texts,
      most common first, ties broken by first appearance. */
  function MostCommon(texts: seq<string>, n: nat): (r: seq<string>)
    ensures NoDup(r)
    ensures forall t :: t in r ==> t in texts
    ensures |r| == if |Distinct(texts)| <= n then |Distinct(texts)| else n
    ensures |r| < n ==> forall t :: t in texts ==> t in r
    ensures forall i, j :: 0 <= i < j < |r| ==> multiset(texts)[r[i]] >= multiset(texts)[r[j]]
    ensures forall i, j :: 0 <= i < j < |r| && multiset(texts)[r[i]] == multiset(texts)[r[j]] ==>
      FirstSeen(texts)(r[i]) < FirstSeen(texts)(r[j])
    ensures forall s, t :: s in r && t in texts && t !in r ==>
      || multiset(texts)[s] > multiset(texts)[t]
      || (multiset(texts)[s] == multiset(texts)[t] && FirstSeen(texts)(s) < FirstSeen(texts)(t))
  {
    TopRankedOrder(texts, n);
    TopRanked(texts, n)
  }

  /** Keeps the texts counted more than once, in order. */
  function Repeated(top: seq<string>, texts: seq<string>): (r: seq<string>)
    ensures forall t :: t in r <==> t in top && multiset(texts)[t] > 1
    ensures NoDup(top) ==> NoDup(r)
  {
    if |top| == 0 then []
    else if multiset(texts)[top[0]] > 1 then [top[0]] + Repeated(top[1..], texts)
    else Repeated(top[1..], texts)
  }

  /** The texts among the 10,000 most common that more than one record holds,
      in ranking order. */
  function Candidates(db: Db): (r: seq<string>)
    requires WellFormed(db)
    ensures NoDup(r)
    ensures forall q :: q in r <==>
      q in MostCommon(Texts(db.records, db.listing), CandidateLimit) && Occurrences(db, q) > 1
  {
    var texts := Texts(db.records, db.listing);
    var r := Repeated(MostCommon(texts, CandidateLimit), texts);
    forall q
      ensures multiset(texts)[q] == Occurrences(db, q)
    {
      CounterCounts(db.records, db.listing, q);
    }
    r
  }

  /** The texts that occur more than once. */
  function RepeatedTexts(texts: seq<string>): set<string> {
    set t | t in texts && multiset(texts)[t] > 1
  }

  /** The texts held by more than one record. */
  function DuplicatedTexts(db: Db): set<string>
    requires WellFormed(db)
  {
    RepeatedTexts(Texts(db.records, db.listing))
  }

  /** A text that occurs more than once is among the `n` most common when
      at most `n` texts occur more than once: were it left out, the `n` texts
      kept would all be at least as frequent, hence repeated too, and with it
      more than `n` texts would repeat. */
  lemma MostCommonKeepsRepeated(texts: seq<string>, n: nat, q: string)
    requires multiset(texts)[q] > 1
    requires |RepeatedTexts(texts)| <= n
    ensures q in MostCommon(texts, n)
  {
    var r := MostCommon(texts, n);
    if q !in r {
      assert q in texts;
      assert |r| == n;
      assert Elems(r) + {q} <= RepeatedTexts(texts);
      NoDupCard(r);
      assert |Elems(r) + {q}| == n + 1;
      SubsetCard(Elems(r) + {q}, RepeatedTexts(texts));
    }
  }

  /** The cut after 10,000 texts only matters when more texts than that are
      duplicated: otherwise the candidates are exactly the duplicated texts. */
  lemma DuplicatesWithinLimitAreCandidates(db: Db)
    requires WellFormed(db)
    requires |DuplicatedTexts(db)| <= CandidateLimit
    ensures forall q :: q in Candidates(db) <==> Occurrences(db, q) > 1
  {
    var texts := Texts(db.records, db.listing);
    forall q | Occurrences(db, q) > 1
      ensures q in Candidates(db)
    {
      CounterCounts(db.records, db.listing, q);
      MostCommonKeepsRepeated(texts, CandidateLimit, q);
    }
  }

  /** The record kept for a text: the first name the store lists for it. */
  function Survivor(db: Db, q: string): Name
    requires WellFormed(db) && Occurrences(db, q) > 0
  {
    NamesWith(db.records, db.listing, q)[0]
  }

  /** The survivor is listed before every other record with its text. */
  lemma {:induction false} SurvivorIsFirstListed(records: map<Name, QueryRecord>, listing: seq<Name>, q: string)
    requires Listed(records, listing) && |NamesWith(records, listing, q)| > 0
    ensures
      var first := NamesWith(records, listing, q)[0];
      && first in listing && records[first].query == q
      && forall i :: 0 <= i < IndexOf(listing, first) ==> records[listing[i]].query != q
  {
    var first := NamesWith(records, listing, q)[0];
    if records[listing[0]].query != q {
      SurvivorIsFirstListed(records, listing[1..], q);
      assert first in listing[1..];
      var j := IndexOf(listing[1..], first);
      assert IndexOf(listing, first) == j + 1 by {
        assert listing[j + 1] == first;
        assert listing[0] != first;
        assert forall m :: 0 <= m < j ==> listing[1..][m] != first;
      }
      forall i | 0 <= i < IndexOf(listing, first)
        ensures records[listing[i]].query != q
      {
        if i > 0 { assert listing[i] == listing[1..][i - 1]; }
      }
    }
  }

  /** The body of the loop for one candidate text: delete every record with
      the text except the first listed, set that one's `occurence` to the
      number of records the text had, and save it. */
  function CompactText(db: Db, q: string, registry: Registry): (r: Db)
    requires WellFormed(db) && Occurrences(db, q) > 0
  {
    var occurrences := NamesWith(db.records, db.listing, q);
    var pick := occurrences[0];
    var doomed := Elems(occurrences[1..]);
    var kept := db.records - doomed;
    var saved := Validate(db.records[pick].(occurence := |occurrences|), registry);
    Db(kept[pick := saved], Keep(db.listing, kept.Keys))
  }

  /** `r` holds a subset of the records of `db`, listed in the order `db`
      listed them. */
  predicate Shrunk(db: Db, r: Db) {
    && WellFormed(r)
    && r.records.Keys <= db.records.Keys
    && r.listing == Keep(db.listing, r.records.Keys)
  }

  /** Records whose text is not among `texts` are neither deleted nor changed. */
  predicate Untouched(db: Db, r: Db, texts: set<string>) {
    forall n :: n in db.records && db.records[n].query !in texts ==>
      n in r.records && r.records[n] == db.records[n]
  }

  /** Of the records whose text is among `texts`, only the survivor is left. */
  predicate OnlySurvivors(db: Db, r: Db, texts: set<string>)
    requires WellFormed(db)
    requires forall q :: q in texts ==> Occurrences(db, q) > 0
  {
    forall n :: n in db.records && db.records[n].query in texts ==>
      (n in r.records <==> n == Survivor(db, db.records[n].query))
  }

  /** Each survivor stores its text's record count, replacing whatever it
      held, and a summary recomputed on save. */
  predicate SurvivorsCounted(db: Db, r: Db, texts: set<string>, registry: Registry)
    requires WellFormed(db)
    requires forall q :: q in texts ==> Occurrences(db, q) > 0
  {
    forall q :: q in texts ==>
      Survivor(db, q) in r.records &&
      r.records[Survivor(db, q)]
        == Validate(db.records[Survivor(db, q)].(occurence := Occurrences(db, q)), registry)
  }

  /** `r` is what compacting `db` on the texts of `texts` yields. */
  predicate CompactedFrom(db: Db, r: Db, texts: set<string>, registry: Registry)
    requires WellFormed(db)
    requires forall q :: q in texts ==> Occurrences(db, q) > 0
  {
    && Shrunk(db, r)
    && Untouched(db, r, texts)
    && OnlySurvivors(db, r, texts)
    && SurvivorsCounted(db, r, texts, registry)
  }

  /** What compacting one text does to the records, record by record. */
  lemma CompactTextRecords(db: Db, q: string, registry: Registry)
    requires WellFormed(db) && Occurrences(db, q) > 0
    ensures var r := CompactText(db, q, registry);
      var pick := Survivor(db, q);
      && r.listing == Keep(db.listing, r.records.Keys)
      && (forall n :: n in r.records <==> n in db.records && (db.records[n].query != q || n == pick))
      && (forall n :: n in r.records && n != pick ==> r.records[n] == db.records[n])
      && r.records[pick] == Validate(db.records[pick].(occurence := Occurrences(db, q)), registry)
  {
    var occurrences := NamesWith(db.records, db.listing, q);
    var pick := occurrences[0];
    var doomed := Elems(occurrences[1..]);
    var kept := db.records - doomed;
    var r := CompactText(db, q, registry);
    assert NoDup(occurrences);
    assert r.records.Keys == kept.Keys;
    forall n
      ensures n in doomed <==> n in db.records && db.records[n].query == q && n != pick
    {
      if n in db.records && db.records[n].query == q && n != pick {
        assert n in occurrences;
        var i :| 0 <= i < |occurrences| && occurrences[i] == n;
        assert occurrences[1..][i - 1] == n;
      }
    }
  }

  lemma CompactTextIsCompaction(db: Db, q: string, registry: Registry)
    requires WellFormed(db) && Occurrences(db, q) > 0
    ensures CompactedFrom(db, CompactText(db, q, registry), {q}, registry)
  {
    CompactTextRecords(db, q, registry);
  }

  /** Compacting one text leaves the records of every other text, and their
      listing order, as they were. */
  lemma {:induction false} NamesWithAfterCompaction(
    records: map<Name, QueryRecord>, listing: seq<Name>,
    records': map<Name, QueryRecord>, keys: set<Name>, q: string)
    requires Listed(records, listing)
    requires Listed(records', Keep(listing, keys))
    requires forall n :: n in listing && records[n].query == q ==>
      n in keys && n in records' && records'[n].query == q
    requires forall n :: n in listing && n in keys && records'[n].query == q ==> records[n].query == q
    ensures NamesWith(records', Keep(listing, keys), q) == NamesWith(records, listing, q)
  {
    if |listing| > 0 {
      var n := listing[0];
      NamesWithAfterCompaction(records, listing[1..], records', keys, q);
      if n in keys {
        assert Keep(listing, keys) == [n] + Keep(listing[1..], keys);
        assert Keep(listing, keys)[1..] == Keep(listing[1..], keys);
      }
    }
  }

  lemma NamesWithPreserved(db: Db, r: Db, texts: set<string>, registry: Registry, q: string)
    requires WellFormed(db)
    requires forall t :: t in texts ==> Occurrences(db, t) > 0
    requires CompactedFrom(db, r, texts, registry)
    requires q !in texts
    ensures NamesWith(r.records, r.listing, q) == NamesWith(db.records, db.listing, q)
  {
    forall n | n in db.listing && n in r.records.Keys && r.records[n].query == q
      ensures db.records[n].query == q
    {
      if db.records[n].query in texts {
        assert n == Survivor(db, db.records[n].query);
      }
    }
    NamesWithAfterCompaction(db.records, db.listing, r.records, r.records.Keys, q);
  }

  lemma ShrunkCompose(db: Db, mid: Db, r: Db)
    requires WellFormed(db) && Shrunk(db, mid) && Shrunk(mid, r)
    ensures Shrunk(db, r)
  {
    KeepKeep(db.listing, mid.records.Keys, r.records.Keys);
    assert mid.records.Keys * r.records.Keys == r.records.Keys;
  }

  lemma UntouchedCompose(db: Db, mid: Db, r: Db, a: set<string>, b: set<string>)
    requires Untouched(db, mid, a) && Untouched(mid, r, b)
    ensures Untouched(db, r, a + b)
  {
    forall n | n in db.records && db.records[n].query !in a + b
      ensures n in r.records && r.records[n] == db.records[n]
    {
      assert n in mid.records && mid.records[n] == db.records[n];
    }
  }

  /** Compacting on `a` changes neither the survivor nor the count of a
      text outside `a`. */
  lemma SurvivorPreserved(db: Db, mid: Db, a: set<string>, registry: Registry, q: string)
    requires WellFormed(db)
    requires forall t :: t in a ==> Occurrences(db, t) > 0
    requires CompactedFrom(db, mid, a, registry)
    requires q !in a
    ensures NamesWith(mid.records, mid.listing, q) == NamesWith(db.records, db.listing, q)
    ensures Occurrences(mid, q) == Occurrences(db, q)
  {
    NamesWithPreserved(db, mid, a, registry, q);
  }

  lemma OnlySurvivorsCompose(db: Db, mid: Db, r: Db, a: set<string>, b: set<string>, registry: Registry)
    requires WellFormed(db) && a !! b
    requires forall q :: q in a + b ==> Occurrences(db, q) > 0
    requires CompactedFrom(db, mid, a, registry)
    requires forall q :: q in b ==> Occurrences(mid, q) > 0
    requires CompactedFrom(mid, r, b, registry)
    ensures OnlySurvivors(db, r, a + b)
  {
    forall n | n in db.records && db.records[n].query in a + b
      ensures n in r.records <==> n == Survivor(db, db.records[n].query)
    {
      var q := db.records[n].query;
      if q in a {
        if n in mid.records {
          assert n == Survivor(db, q);
          assert mid.records[n].query == q;
        }
      } else {
        SurvivorPreserved(db, mid, a, registry, q);
        assert n in mid.records && mid.records[n] == db.records[n];
        assert Survivor(mid, q) == Survivor(db, q);
      }
    }
  }

  lemma SurvivorsCountedCompose(db: Db, mid: Db, r: Db, a: set<string>, b: set<string>, registry: Registry)
    requires WellFormed(db) && a !! b
    requires forall q :: q in a + b ==> Occurrences(db, q) > 0
    requires CompactedFrom(db, mid, a, registry)
    requires forall q :: q in b ==> Occurrences(mid, q) > 0
    requires CompactedFrom(mid, r, b, registry)
    ensures SurvivorsCounted(db, r, a + b, registry)
  {
    forall q | q in a + b
      ensures Survivor(db, q) in r.records
      ensures r.records[Survivor(db, q)]
        == Validate(db.records[Survivor(db, q)].(occurence := Occurrences(db, q)), registry)
    {
      if q in a {
        var s := Survivor(db, q);
        assert s in mid.records;
        assert mid.records[s].query == q;
        assert mid.records[s].query !in b;
      } else {
        SurvivorPreserved(db, mid, a, registry, q);
        assert Survivor(mid, q) == Survivor(db, q);
        assert mid.records[Survivor(db, q)] == db.records[Survivor(db, q)];
      }
    }
  }

  /** Compacting on `a` and then, on the result, on disjoint `b` is
      compacting on `a + b`. */
  lemma CompactedCompose(db: Db, mid: Db, r: Db, a: set<string>, b: set<string>, registry: Registry)
    requires WellFormed(db) && a !! b
    requires forall q :: q in a + b ==> Occurrences(db, q) > 0
    requires CompactedFrom(db, mid, a, registry)
    requires forall q :: q in b ==> Occurrences(mid, q) > 0
    requires CompactedFrom(mid, r, b, registry)
    ensures CompactedFrom(db, r, a + b, registry)
  {
    ShrunkCompose(db, mid, r);
    UntouchedCompose(db, mid, r, a, b);
    OnlySurvivorsCompose(db, mid, r, a, b, registry);
    SurvivorsCountedCompose(db, mid, r, a, b, registry);
  }

  /** Compacting on some texts keeps the store well formed and keeps every
      other text present. */
  lemma OthersSurvive(db: Db, mid: Db, texts: set<string>, registry: Registry, rest: seq<string>)
    requires WellFormed(db)
    requires forall t :: t in texts ==> Occurrences(db, t) > 0
    requires CompactedFrom(db, mid, texts, registry)
    requires forall t :: t in rest ==> t !in texts && Occurrences(db, t) > 0
    ensures WellFormed(mid)
    ensures forall t :: t in rest ==> Occurrences(mid, t) > 0
  {
    forall t | t in rest
      ensures Occurrences(mid, t) > 0
    {
      NamesWithPreserved(db, mid, texts, registry, t);
    }
  }

  /** Compacting one text keeps the store well formed and keeps every
      other text present. */
  lemma CompactTextKeepsOthers(db: Db, q: string, registry: Registry, rest: seq<string>)
    requires WellFormed(db) && Occurrences(db, q) > 0
    requires q !in rest && forall t :: t in rest ==> Occurrences(db, t) > 0
    ensures WellFormed(CompactText(db, q, registry))
    ensures forall t :: t in rest ==> Occurrences(CompactText(db, q, registry), t) > 0
  {
    CompactTextIsCompaction(db, q, registry);
    OthersSurvive(db, CompactText(db, q, registry), {q}, registry, rest);
  }

  /** The loop over the candidates, one text at a time. */
  function CompactAll(db: Db, candidates: seq<string>, registry: Registry): (r: Db)
    requires WellFormed(db) && NoDup(candidates)
    requires forall q :: q in candidates ==> Occurrences(db, q) > 0
    decreases |candidates|
  {
    if |candidates| == 0 then db
    else
      var q := candidates[0];
      var rest := candidates[1..];
      CompactTextKeepsOthers(db, q, registry, rest);
      CompactAll(CompactText(db, q, registry), rest, registry)
  }

  lemma CompactedFromNothing(db: Db, registry: Registry)
    requires WellFormed(db)
    ensures CompactedFrom(db, db, {}, registry)
  {
    KeepAll(db.listing, db.records.Keys);
  }

  /** One turn of the loop: compacting the first candidate and then the
      rest is compacting all of them. */
  lemma CompactFirstThenRest(db: Db, candidates: seq<string>, registry: Registry, r: Db)
    requires WellFormed(db) && NoDup(candidates) && |candidates| > 0
    requires forall q :: q in candidates ==> Occurrences(db, q) > 0
    requires WellFormed(CompactText(db, candidates[0], registry))
    requires forall t :: t in candidates[1..] ==> Occurrences(CompactText(db, candidates[0], registry), t) > 0
    requires CompactedFrom(CompactText(db, candidates[0], registry), r, Elems(candidates[1..]), registry)
    ensures CompactedFrom(db, r, Elems(candidates), registry)
  {
    var q := candidates[0];
    var rest := candidates[1..];
    var mid := CompactText(db, q, registry);
    CompactTextIsCompaction(db, q, registry);
    ElemsCons(candidates);
    assert forall t :: t in {q} + Elems(rest) ==> Occurrences(db, t) > 0;
    assert forall t :: t in Elems(rest) ==> Occurrences(mid, t) > 0;
    assert {q} !! Elems(rest);
    CompactedCompose(db, mid, r, {q}, Elems(rest), registry);
  }

  /** The loop compacts exactly the candidate texts, whatever their order. */
  lemma {:induction false} CompactAllIsCompaction(db: Db, candidates: seq<string>, registry: Registry)
    requires WellFormed(db) && NoDup(candidates)
    requires forall q :: q in candidates ==> Occurrences(db, q) > 0
    decreases |candidates|
    ensures CompactedFrom(db, CompactAll(db, candidates, registry), Elems(candidates), registry)
  {
    if |candidates| == 0 {
      assert Elems(candidates) == {};
      CompactedFromNothing(db, registry);
    } else {
      var rest := candidates[1..];
      CompactTextKeepsOthers(db, candidates[0], registry, rest);
      var mid := CompactText(db, candidates[0], registry);
      CompactAllIsCompaction(mid, rest, registry);
      CompactFirstThenRest(db, candidates, registry, CompactAll(mid, rest, registry));
    }
  }

  /** `cleanup_sql_metadata`. */
  function CleanupSqlMetadata(db: Db, registry: Registry): (r: Db)
    requires WellFormed(db)
    ensures CompactedFrom(db, r, Elems(Candidates(db)), registry)
  {
    CompactAllIsCompaction(db, Candidates(db), registry);
    CompactAll(db, Candidates(db), registry)
  }

  /** Compaction changes no record's text. */
  lemma CompactedKeepsTexts(db: Db, r: Db, texts: set<string>, registry: Registry, n: Name)
    requires WellFormed(db)
    requires forall q :: q in texts ==> Occurrences(db, q) > 0
    requires CompactedFrom(db, r, texts, registry)
    requires n in r.records
    ensures n in db.records && r.records[n].query == db.records[n].query
  {
    var q := db.records[n].query;
    if q in texts {
      assert n == Survivor(db, q);
    }
  }

  /** After compacting on `texts`, each of them is held by exactly one record. */
  lemma CompactedLeavesOne(db: Db, r: Db, texts: set<string>, registry: Registry, q: string)
    requires WellFormed(db)
    requires forall t :: t in texts ==> Occurrences(db, t) > 0
    requires CompactedFrom(db, r, texts, registry)
    requires q in texts
    ensures Occurrences(r, q) == 1
  {
    var names := NamesWith(r.records, r.listing, q);
    var s := Survivor(db, q);
    forall n
      ensures n in names <==> n == s
    {
      if n in names {
        CompactedKeepsTexts(db, r, texts, registry, n);
      }
      if n == s {
        assert s in r.records && r.records[s].query == q;
      }
    }
    assert Elems(names) == {s};
    NoDupCard(names);
  }

  /** After a cleanup no text is held by more than one record, and no text
      disappears. */
  lemma CleanupLeavesNoDuplicates(db: Db, registry: Registry, q: string)
    requires WellFormed(db)
    requires |DuplicatedTexts(db)| <= CandidateLimit
    ensures var r := CleanupSqlMetadata(db, registry);
      && Occurrences(r, q) <= 1
      && (Occurrences(r, q) > 0 <==> Occurrences(db, q) > 0)
  {
    var r := CleanupSqlMetadata(db, registry);
    var texts := Elems(Candidates(db));
    DuplicatesWithinLimitAreCandidates(db);
    if q in texts {
      CompactedLeavesOne(db, r, texts, registry, q);
    } else {
      NamesWithPreserved(db, r, texts, registry, q);
    }
  }

  /** A store without duplicated texts has no candidates. */
  lemma NoCandidates(db: Db)
    requires WellFormed(db)
    requires forall q :: Occurrences(db, q) <= 1
    ensures Candidates(db) == []
  {
    var c := Candidates(db);
    assert Elems(c) == {};
    NoDupCard(c);
  }

  /** Running the cleanup a second time changes nothing, as long as the
      first run saw no more duplicated texts than the candidate limit. */
  lemma CleanupIdempotent(db: Db, registry: Registry)
    requires WellFormed(db)
    requires |DuplicatedTexts(db)| <= CandidateLimit
    ensures var r := CleanupSqlMetadata(db, registry);
      WellFormed(r) && CleanupSqlMetadata(r, registry) == r
  {
    var r := CleanupSqlMetadata(db, registry);
    forall q
      ensures Occurrences(r, q) <= 1
    {
      CleanupLeavesNoDuplicates(db, registry, q);
    }
    NoCandidates(r);
  }

  /** Records of a text held by at most one record are neither deleted nor
      changed by a cleanup. */
  lemma CleanupLeavesSinglesAlone(db: Db, registry: Registry, n: Name)
    requires WellFormed(db)
    requires n in db.records && Occurrences(db, db.records[n].query) <= 1
    ensures var r := CleanupSqlMetadata(db, registry);
      n in r.records && r.records[n] == db.records[n]
  {
    assert db.records[n].query !in Elems(Candidates(db));
  }
}
