/** Fractional sort keys: CalculateSort over exact reals. */
module SortKeys {
  import opened Wrappers

  datatype Row = Row(id: int, sort: real)

  // ---------- The queries ----------

  function Greater(a: Option<real>, x: real): Option<real>
  {
    if a.Some? && a.value >= x then a else Some(x)
  }

  function Lesser(a: Option<real>, x: real): Option<real>
  {
    if a.Some? && a.value <= x then a else Some(x)
  }

  /** SELECT MAX(sort), of all rows or of those below a bound; NULL is None. */
  function MaxSort(rows: seq<Row>, below: Option<real>): Option<real>
  {
    if rows == [] then None
    else
      var m := MaxSort(rows[1..], below);
      if below.None? || rows[0].sort < below.value then Greater(m, rows[0].sort) else m
  }

  /** SELECT MIN(sort) above a bound. */
  function MinAbove(rows: seq<Row>, s: real): Option<real>
  {
    if rows == [] then None
    else
      var m := MinAbove(rows[1..], s);
      if rows[0].sort > s then Lesser(m, rows[0].sort) else m
  }

  lemma {:induction false} MaxSortIsGreatest(rows: seq<Row>, below: Option<real>)
    ensures var m := MaxSort(rows, below);
            && (m.None? <==> forall r <- rows :: below.Some? && r.sort >= below.value)
            && (m.Some? ==>
                  && (exists r <- rows :: r.sort == m.value) && (below.Some? ==> m.value < below.value)
                  && forall r <- rows :: (below.Some? && r.sort >= below.value) || r.sort <= m.value)
  {
    if rows != [] {
      MaxSortIsGreatest(rows[1..], below);
      assert forall r :: r in rows <==> r == rows[0] || r in rows[1..];
    }
  }

  lemma {:induction false} MinAboveIsLeast(rows: seq<Row>, s: real)
    ensures var m := MinAbove(rows, s);
            && (m.None? <==> forall r <- rows :: r.sort <= s)
            && (m.Some? ==>
                  && (exists r <- rows :: r.sort == m.value) && m.value > s
                  && forall r <- rows :: r.sort <= s || r.sort >= m.value)
  {
    if rows != [] {
      MinAboveIsLeast(rows[1..], s);
      assert forall r :: r in rows <==> r == rows[0] || r in rows[1..];
    }
  }

  /** A row other than id sits at s; what the query returns for 0 reads as no row. */
  predicate Taken(rows: seq<Row>, id: int, s: real)
  {
    s != 0.0 && exists r <- rows :: r.sort == s && r.id != id
  }

  function OrZero(m: Option<real>): real
  {
    if m.Some? then m.value else 0.0
  }

  /** The key for a request whose slot is taken, from the two neighbours found; 0 is none. */
  function Beside(s: real, prev: real, next: real): real
  {
    if prev > 0.0 && next > 0.0 then (prev + s) / 2.0
    else if prev > 0.0 then s + 1.0
    else s / 2.0
  }

  /** The key for a request, when the queries succeed. */
  function NewSort(rows: seq<Row>, id: int, s: real): real
  {
    if s <= 0.0 then OrZero(MaxSort(rows, None)) + 1.0
    else if !Taken(rows, id, s) then s
    else Beside(s, OrZero(MaxSort(rows, Some(s))), OrZero(MinAbove(rows, s)))
  }

  /** Which of the queries of steps 1 to 4 fail; the errors of the last two are dropped. */
  datatype Failures = Failures(max: bool, lookup: bool, prev: bool, next: bool)

  const NO_FAILURES := Failures(false, false, false, false)

  /** Without an id the lookup compares with NULL and finds nothing, as if it had failed. */
  function Seen(id: Option<int>, fails: Failures): Failures
  {
    if id.None? then fails.(lookup := true) else fails
  }

  /** The key for a request, or none when step 1 fails. */
  function Answer(rows: seq<Row>, id: Option<int>, s: real, fails: Failures): Option<real>
  {
    if s <= 0.0 then if fails.max then None else Some(OrZero(MaxSort(rows, None)) + 1.0)
    else Some(SortOnFailure(rows, if id.Some? then id.value else 0, s, Seen(id, fails)))
  }

  /**
   CalculateSort; the lookup's error reads as a free slot, and a neighbour's as no neighbour. The
   caller stores the key under an id of its own when it has none to ask with.
   */
  method CalculateSort(rows: seq<Row>, id: Option<int>, sort: real, fails: Failures)
    returns (newSort: real, ok: bool)
    ensures ok <==> sort > 0.0 || !fails.max
    ensures !ok ==> newSort == 1.0
    ensures ok ==> Answer(rows, id, sort, fails) == Some(newSort)
    ensures fails == NO_FAILURES && id.Some? ==> newSort == NewSort(rows, id.value, sort)
    ensures ok && Ordered(rows) ==>
              newSort > 0.0
              && forall own :: id == None || id == Some(own) ==>
                   (Ordered(Store(rows, own, newSort))
                    <==> sort <= 0.0 || SafeToStore(rows, own, sort, Seen(id, fails)))
  {
    if Ordered(rows) && (sort > 0.0 || !fails.max) {
      AnswerIsSafeExactly(rows, id, sort, fails);
    }
    if sort <= 0.0 {
      if fails.max {
        return 1.0, false;
      }
      return OrZero(MaxSort(rows, None)) + 1.0, true;
    }
    var existingSort :=
      if !fails.lookup && id.Some? && exists r <- rows :: r.sort == sort && r.id != id.value then sort else 0.0;
    if fails.lookup || existingSort == 0.0 {
      return sort, true;
    }
    var prevSort := if fails.prev then 0.0 else OrZero(MaxSort(rows, Some(sort)));
    var nextSort := if fails.next then 0.0 else OrZero(MinAbove(rows, sort));
    if prevSort > 0.0 && nextSort > 0.0 {
      newSort := (prevSort + sort) / 2.0;
    } else if prevSort > 0.0 {
      newSort := sort + 1.0;
    } else if nextSort > 0.0 {
      newSort := sort / 2.0;
    } else {
      newSort := sort / 2.0;
    }
    ok := true;
  }

  // ---------- Every run keeps the keys apart ----------

  ghost predicate Ordered(rows: seq<Row>)
  {
    && (forall r <- rows :: r.sort > 0.0)
    && (forall i, j :: 0 <= i < j < |rows| ==> rows[i].id != rows[j].id && rows[i].sort != rows[j].sort)
  }

  /** Saves a key under an id, in the row that has the id or in a new one. */
  function Store(rows: seq<Row>, id: int, s: real): seq<Row>
  {
    if rows == [] then [Row(id, s)]
    else if rows[0].id == id then [Row(id, s)] + rows[1..]
    else [rows[0]] + Store(rows[1..], id, s)
  }

  ghost predicate DistinctIds(rows: seq<Row>)
  {
    forall i, j :: 0 <= i < j < |rows| ==> rows[i].id != rows[j].id
  }

  lemma {:induction false} StoredMembers(rows: seq<Row>, id: int, s: real, r: Row)
    requires DistinctIds(rows)
    ensures r in Store(rows, id, s) <==> r == Row(id, s) || (r in rows && r.id != id)
  {
    if rows != [] {
      assert r in rows <==> r == rows[0] || r in rows[1..];
      if rows[0].id == id {
        assert r in rows[1..] ==> r.id != id;
      } else {
        StoredMembers(rows[1..], id, s, r);
      }
    }
  }

  lemma {:induction false} StoredIds(rows: seq<Row>, id: int, s: real)
    requires DistinctIds(rows)
    ensures DistinctIds(Store(rows, id, s))
  {
    if rows != [] && rows[0].id != id {
      var rest := Store(rows[1..], id, s);
      StoredIds(rows[1..], id, s);
      forall i | 0 <= i < |rest|
        ensures rest[i].id != rows[0].id
      {
        StoredMembers(rows[1..], id, s, rest[i]);
      }
    }
  }

  /** Two rows with the same key are the same row. */
  ghost predicate KeysApart(rows: seq<Row>)
  {
    forall a <- rows, b <- rows :: a.sort == b.sort ==> a == b
  }

  /** The greatest key below s, or 0 when there is none. */
  ghost predicate NearestBelow(rows: seq<Row>, p: real, s: real)
  {
    && 0.0 <= p < s
    && (p == 0.0 || exists r <- rows :: r.sort == p)
    && (forall r <- rows :: r.sort <= p || r.sort >= s)
  }

  /** The key is positive, free, and next to the one asked for: no row lies between the two. */
  lemma NewSortIsFreeAndAdjacent(rows: seq<Row>, id: int, s: real)
    requires Ordered(rows)
    ensures var n := NewSort(rows, id, s);
            && n > 0.0
            && (forall r <- rows :: r.id != id ==> r.sort != n)
            && (s > 0.0 && n != s ==>
                  forall r <- rows :: !(n < r.sort < s) && !(s < r.sort < n))
            && (s > 0.0 && (forall r <- rows :: r.id != id ==> r.sort != s) ==> n == s)
            && (s <= 0.0 ==> forall r <- rows :: r.sort < n)
            && (s <= 0.0 ==> if rows == [] then n == 1.0 else exists r <- rows :: n == r.sort + 1.0)
            && (s > 0.0 && Taken(rows, id, s) ==>
                  exists p :: NearestBelow(rows, p, s)
                              && n == if p > 0.0 && forall r <- rows :: r.sort <= s then s + 1.0 else (p + s) / 2.0)
  {
    MaxSortIsGreatest(rows, None);
    MaxSortIsGreatest(rows, Some(s));
    MinAboveIsLeast(rows, s);
    if Taken(rows, id, s) && s > 0.0 {
      assert NearestBelow(rows, OrZero(MaxSort(rows, Some(s))), s);
    }
  }

  lemma StoreKeepsOrdered(rows: seq<Row>, id: int, s: real)
    requires Ordered(rows) && s > 0.0
    ensures Ordered(Store(rows, id, s)) <==> forall r <- rows :: r.id != id ==> r.sort != s
  {
    StoredIds(rows, id, s);
    forall r: Row
      ensures r in Store(rows, id, s) <==> r == Row(id, s) || (r in rows && r.id != id)
    {
      StoredMembers(rows, id, s, r);
    }
    if KeysApart(Store(rows, id, s)) {
      assert Row(id, s) in Store(rows, id, s);
    }
  }

  /** The key returned for a positive request, whatever fails. */
  function SortOnFailure(rows: seq<Row>, id: int, s: real, fails: Failures): real
  {
    if fails.lookup || !Taken(rows, id, s) then s
    else
      Beside(s, if fails.prev then 0.0 else OrZero(MaxSort(rows, Some(s))),
             if fails.next then 0.0 else OrZero(MinAbove(rows, s)))
  }

  /** What a failure needs of the rows so that storing the key returned keeps all keys apart. */
  predicate SafeToStore(rows: seq<Row>, id: int, s: real, fails: Failures)
  {
    if !Taken(rows, id, s) then true
    else if fails.lookup then false
    else if fails.prev then !Taken(rows, id, s / 2.0)
    else if fails.next && exists r <- rows :: r.sort < s then !Taken(rows, id, s + 1.0)
    else true
  }

  lemma FailuresAreSafeExactly(rows: seq<Row>, id: int, s: real, fails: Failures)
    requires Ordered(rows)
    ensures s > 0.0 ==> SortOnFailure(rows, id, s, fails) > 0.0
    ensures s > 0.0 ==>
              (Ordered(Store(rows, id, SortOnFailure(rows, id, s, fails))) <==> SafeToStore(rows, id, s, fails))
    ensures s <= 0.0 ==> NewSort(rows, id, s) > 0.0 && Ordered(Store(rows, id, NewSort(rows, id, s)))
  {
    MaxSortIsGreatest(rows, Some(s));
    MinAboveIsLeast(rows, s);
    NewSortIsFreeAndAdjacent(rows, id, s);
    if s > 0.0 {
      StoreKeepsOrdered(rows, id, SortOnFailure(rows, id, s, fails));
    } else {
      StoreKeepsOrdered(rows, id, NewSort(rows, id, s));
    }
  }

  lemma AnswerIsSafeExactly(rows: seq<Row>, id: Option<int>, s: real, fails: Failures)
    requires Ordered(rows) && Answer(rows, id, s, fails).Some?
    ensures var key := Answer(rows, id, s, fails).value;
            && key > 0.0
            && forall own :: id == None || id == Some(own) ==>
                 (Ordered(Store(rows, own, key)) <==> s <= 0.0 || SafeToStore(rows, own, s, Seen(id, fails)))
  {
    MaxSortIsGreatest(rows, None);
    forall own | id == None || id == Some(own)
      ensures var key := Answer(rows, id, s, fails).value;
              Ordered(Store(rows, own, key)) <==> s <= 0.0 || SafeToStore(rows, own, s, Seen(id, fails))
    {
      FailuresAreSafeExactly(rows, own, s, Seen(id, fails));
    }
    FailuresAreSafeExactly(rows, if id.Some? then id.value else 0, s, Seen(id, fails));
  }

  // ---------- Runs ----------

  /** A call with an id or without one, for a row that is then stored under own. */
  datatype Request = Request(id: Option<int>, own: int, sort: real, fails: Failures)

  /** The key is stored, unless there is none. */
  function Served(rows: seq<Row>, q: Request): seq<Row>
  {
    match Answer(rows, q.id, q.sort, q.fails)
    case None => rows
    case Some(key) => Store(rows, q.own, key)
  }

  ghost predicate AlwaysOrdered(rows: seq<Row>, requests: seq<Request>)
    decreases |requests|
  {
    Ordered(rows) && (requests == [] || AlwaysOrdered(Served(rows, requests[0]), requests[1..]))
  }

  /** At its turn each request finds its slot free, or what led it elsewhere worked. */
  predicate SafeRun(rows: seq<Row>, requests: seq<Request>)
    decreases |requests|
  {
    requests == [] ||
    var q := requests[0];
    && (q.sort <= 0.0 || SafeToStore(rows, q.own, q.sort, Seen(q.id, q.fails)))
    && SafeRun(Served(rows, q), requests[1..])
  }

  /** Keys stay positive and apart throughout a run exactly when the run is safe. */
  lemma {:induction false} RunsKeepKeysApartExactly(rows: seq<Row>, requests: seq<Request>)
    requires Ordered(rows) && forall q <- requests :: q.id == None || q.id == Some(q.own)
    ensures AlwaysOrdered(rows, requests) <==> SafeRun(rows, requests)
    decreases |requests|
  {
    if requests != [] {
      var q := requests[0];
      if Answer(rows, q.id, q.sort, q.fails).Some? {
        AnswerIsSafeExactly(rows, q.id, q.sort, q.fails);
      }
      if Ordered(Served(rows, q)) {
        RunsKeepKeysApartExactly(Served(rows, q), requests[1..]);
      }
    }
  }

  /** Without failures, and with the ids they store under, all requests are safe. */
  lemma {:induction false} RunsKeepKeysApart(rows: seq<Row>, requests: seq<Request>)
    requires Ordered(rows) && forall q <- requests :: q.id == Some(q.own) && q.fails == NO_FAILURES
    ensures AlwaysOrdered(rows, requests)
    decreases |requests|
  {
    if requests != [] {
      var q := requests[0];
      assert q in requests;
      AnswerIsSafeExactly(rows, q.id, q.sort, q.fails);
      RunsKeepKeysApart(Served(rows, q), requests[1..]);
    }
  }

  /** A row that asks for its slot without an id gets it though another row is there. */
  lemma NoIdCanRepeatAKey()
    ensures var rows := [Row(1, 2.0)];
            Ordered(rows) && Answer(rows, None, 2.0, NO_FAILURES) == Some(2.0) && !Ordered(Store(rows, 2, 2.0))
  {
    var rows := [Row(1, 2.0)];
    assert rows[0] in rows;
    AnswerIsSafeExactly(rows, None, 2.0, NO_FAILURES);
  }

  /** Keys 1, 2 and 3, a new row that asks for 2 and a failed step 4: the answer is 3, which is taken. */
  lemma FailureCanRepeatAKey()
    ensures var rows := [Row(1, 1.0), Row(2, 2.0), Row(3, 3.0)];
            var fails := Failures(false, false, false, true);
            && Ordered(rows) && SortOnFailure(rows, 4, 2.0, fails) == 3.0
            && !Ordered(Store(rows, 4, SortOnFailure(rows, 4, 2.0, fails)))
  {
    var rows := [Row(1, 1.0), Row(2, 2.0), Row(3, 3.0)];
    var fails := Failures(false, false, false, true);
    assert rows[0].sort == 1.0 && rows[1].sort == 2.0 && rows[2].sort == 3.0;
    assert Taken(rows, 4, 2.0) && Taken(rows, 4, 3.0);
    assert rows[0] in rows;
    FailuresAreSafeExactly(rows, 4, 2.0, fails);
    MaxSortIsGreatest(rows, Some(2.0));
  }

  // ---------- The halving law ----------

  function Pow2(k: nat): (p: real)
    ensures p >= 1.0
  {
    if k == 0 then 1.0 else 2.0 * Pow2(k - 1)
  }

  /** New rows, in order of arrival, that all ask for the same slot. */
  function Arrive(rows: seq<Row>, ids: seq<int>, s: real): seq<Row>
  {
    if ids == [] then rows
    else
      var rows' := Arrive(rows, ids[..|ids| - 1], s);
      var id := ids[|ids| - 1];
      Store(rows', id, NewSort(rows', id, s))
  }

  /** p moved halfway towards s, k times. */
  function Halfway(s: real, p: real, k: nat): real
  {
    if k == 0 then p else (Halfway(s, p, k - 1) + s) / 2.0
  }

  lemma {:induction false} HalfwayClosedForm(s: real, p: real, k: nat)
    ensures Halfway(s, p, k) == s - (s - p) / Pow2(k)
  {
    if k > 0 {
      HalfwayClosedForm(s, p, k - 1);
      var w := Pow2(k - 1);
      var g := (s - p) / w;
      assert (g / 2.0) * (2.0 * w) == g * w == s - p;
    }
  }

  lemma {:induction false} StoreNew(rows: seq<Row>, id: int, s: real)
    requires forall r <- rows :: r.id != id
    ensures Store(rows, id, s) == rows + [Row(id, s)]
  {
    if rows != [] {
      StoreNew(rows[1..], id, s);
      assert rows == [rows[0]] + rows[1..];
    }
  }

  /** s is occupied, some row is above it and q is the nearest key below it. */
  ghost predicate Between(rows: seq<Row>, q: real, s: real)
  {
    && 0.0 < q < s
    && (exists r <- rows :: r.sort == s)
    && (exists r <- rows :: r.sort > s)
    && (exists r <- rows :: r.sort == q)
    && (forall r <- rows :: r.sort <= q || r.sort >= s)
  }

  lemma ArrivalHalves(rows: seq<Row>, id: int, q: real, s: real)
    requires Between(rows, q, s) && forall r <- rows :: r.id != id
    ensures Store(rows, id, NewSort(rows, id, s)) == rows + [Row(id, (q + s) / 2.0)]
    ensures Between(rows + [Row(id, (q + s) / 2.0)], (q + s) / 2.0, s)
  {
    assert Taken(rows, id, s);
    MaxSortIsGreatest(rows, Some(s));
    MinAboveIsLeast(rows, s);
    assert OrZero(MaxSort(rows, Some(s))) == q;
    StoreNew(rows, id, NewSort(rows, id, s));
    var rows' := rows + [Row(id, (q + s) / 2.0)];
    assert rows'[|rows|] in rows';
    assert forall r <- rows :: r in rows';
  }

  /** Rows with those ids, one after the other halfway towards s. */
  function Lined(ids: seq<int>, s: real, p: real): seq<Row>
  {
    if ids == [] then []
    else Lined(ids[..|ids| - 1], s, p) + [Row(ids[|ids| - 1], Halfway(s, p, |ids|))]
  }

  lemma {:induction false} LinedAt(ids: seq<int>, s: real, p: real, k: nat)
    requires 0 < k <= |ids|
    ensures |Lined(ids, s, p)| == |ids| && Lined(ids, s, p)[k - 1] == Row(ids[k - 1], Halfway(s, p, k))
  {
    if |ids| > 1 {
      LinedAt(ids[..|ids| - 1], s, p, if k < |ids| then k else k - 1);
    }
  }

  lemma {:induction false} LinedIds(ids: seq<int>, s: real, p: real, r: Row)
    requires r in Lined(ids, s, p)
    ensures r.id in ids
  {
    if r in Lined(ids[..|ids| - 1], s, p) {
      LinedIds(ids[..|ids| - 1], s, p, r);
    } else {
      assert r.id == ids[|ids| - 1];
    }
  }

  ghost predicate Fresh(rows: seq<Row>, ids: seq<int>)
  {
    && (forall id <- ids, r <- rows :: r.id != id)
    && (forall i, j :: 0 <= i < j < |ids| ==> ids[i] != ids[j])
  }

  lemma FrontIsFresh(rows: seq<Row>, ids: seq<int>, s: real, p: real)
    requires Fresh(rows, ids) && ids != []
    ensures Fresh(rows, ids[..|ids| - 1])
    ensures forall r <- rows + Lined(ids[..|ids| - 1], s, p) :: r.id != ids[|ids| - 1]
  {
    var front, id := ids[..|ids| - 1], ids[|ids| - 1];
    assert forall x <- front :: x in ids;
    assert id in ids && forall r <- rows :: r.id != id;
    forall r <- Lined(front, s, p)
      ensures r.id != id
    {
      LinedIds(front, s, p, r);
    }
  }

  lemma ArriveStep(rows: seq<Row>, ids: seq<int>, s: real, before: seq<Row>, after: seq<Row>, q: real)
    requires ids != [] && Arrive(rows, ids[..|ids| - 1], s) == before
    requires Between(before, q, s) && forall r <- before :: r.id != ids[|ids| - 1]
    requires after == before + [Row(ids[|ids| - 1], (q + s) / 2.0)]
    ensures Arrive(rows, ids, s) == after && Between(after, (q + s) / 2.0, s)
  {
    ArrivalHalves(before, ids[|ids| - 1], q, s);
  }

  lemma LinedStep(rows: seq<Row>, ids: seq<int>, s: real, p: real)
    requires ids != []
    ensures rows + Lined(ids, s, p) ==
            rows + Lined(ids[..|ids| - 1], s, p)
            + [Row(ids[|ids| - 1], (Halfway(s, p, |ids| - 1) + s) / 2.0)]
  {
  }

  lemma {:induction false} ArrivalsHalve(rows: seq<Row>, ids: seq<int>, s: real, p: real)
    requires Between(rows, p, s) && Fresh(rows, ids)
    ensures Arrive(rows, ids, s) == rows + Lined(ids, s, p)
    ensures Between(rows + Lined(ids, s, p), Halfway(s, p, |ids|), s)
  {
    if ids == [] {
      assert rows + [] == rows;
    } else {
      var front := ids[..|ids| - 1];
      FrontIsFresh(rows, ids, s, p);
      ArrivalsHalve(rows, front, s, p);
      LinedStep(rows, ids, s, p);
      ArriveStep(rows, ids, s, rows + Lined(front, s, p), rows + Lined(ids, s, p), Halfway(s, p, |front|));
    }
  }

  /**
   With a predecessor p and some row above s, the k-th new row that asks for the occupied slot s
   gets s - (s - p) / 2^k: arrivals line up before s and the gap halves each time.
   */
  lemma HalvingLaw(rows: seq<Row>, ids: seq<int>, s: real, p: real, k: nat)
    requires Between(rows, p, s) && Fresh(rows, ids) && 0 < k <= |ids|
    ensures var rows' := Arrive(rows, ids, s);
            && |rows'| == |rows| + |ids| && rows'[..|rows|] == rows
            && rows'[|rows| + k - 1] == Row(ids[k - 1], s - (s - p) / Pow2(k))
  {
    ArrivalsHalve(rows, ids, s, p);
    LinedAt(ids, s, p, k);
    HalfwayClosedForm(s, p, k);
  }
}
