/** The catalog filter that runs before scheduling (server.py:58-60).

    Two queries are issued on one cursor, and only the second is fetched, so
    the first one (which names the `one_time` and `forever` rows) has no effect.
    The second keeps the venues whose id is NOT IN the `venue_id`s of the
    `week` rows, provided that its date test holds. That test compares the
    request date with the end of its week, two bound parameters and no stored
    column, so it is the same for every row. The rows of every user count. */
module SkipFilter {
  import opened Data

  /** A row of the `skips` table; `venueId == None` is an SQL NULL. */
  datatype SkipRow = SkipRow(userId: string, venueId: Option<int>, skipType: string, reminder: Option<string>)

  /** SQLite's comparison `a <= b` of two TEXT values under its default
      BINARY collation: lexicographic, character by character. */
  predicate TextLe(a: string, b: string)
    decreases |a|
  {
    if a == [] then true
    else if b == [] then false
    else if a[0] != b[0] then a[0] < b[0]
    else TextLe(a[1..], b[1..])
  }

  /** `a` sorts at or before `b` exactly when it is a prefix of `b` or the
      two first differ at a position where `a` has the smaller character. */
  lemma {:induction false} TextLeIsLexicographic(a: string, b: string)
    ensures TextLe(a, b) <==>
              (|a| <= |b| && a == b[..|a|]) ||
              (exists k :: 0 <= k < |a| && k < |b| && a[..k] == b[..k] && a[k] < b[k])
    decreases |a|
  {
    if a != [] && b != [] && a[0] == b[0] {
      TextLeIsLexicographic(a[1..], b[1..]);
      PrefixAfterHead(a, b);
      if exists k :: 0 <= k < |a| && k < |b| && a[..k] == b[..k] && a[k] < b[k] {
        var k :| 0 <= k < |a| && k < |b| && a[..k] == b[..k] && a[k] < b[k];
        PrefixesAfterHead(a, b, k);
        assert a[1..][k - 1] < b[1..][k - 1];
      }
      if exists k :: 0 <= k < |a| - 1 && k < |b| - 1 && a[1..][..k] == b[1..][..k] && a[1..][k] < b[1..][k] {
        var k :| 0 <= k < |a| - 1 && k < |b| - 1 && a[1..][..k] == b[1..][..k] && a[1..][k] < b[1..][k];
        PrefixesAfterHead(a, b, k + 1);
        assert a[k + 1] < b[k + 1];
      }
    } else if a != [] && b != [] {
      assert a[..0] == b[..0];
    }
  }

  /** With equal first characters, `a` is a prefix of `b` iff its tail is a
      prefix of the tail of `b`. */
  lemma PrefixAfterHead(a: string, b: string)
    requires a != [] && b != [] && a[0] == b[0]
    ensures (|a| <= |b| && a == b[..|a|]) <==> (|a| - 1 <= |b| - 1 && a[1..] == b[1..][..|a| - 1])
  {
    if |a| <= |b| {
      assert b[..|a|] == [b[0]] + b[1..][..|a| - 1];
      assert a == [a[0]] + a[1..];
    }
  }

  /** With equal first characters, the first `k` characters agree iff the
      first `k - 1` characters of the tails do. */
  lemma PrefixesAfterHead(a: string, b: string, k: nat)
    requires a != [] && b != [] && a[0] == b[0] && 0 < k <= |a| && k <= |b|
    ensures a[..k] == b[..k] <==> a[1..][..k - 1] == b[1..][..k - 1]
  {
    assert a[..k] == [a[0]] + a[1..][..k - 1];
    assert b[..k] == [b[0]] + b[1..][..k - 1];
  }

  /** The inner query of server.py:59: the `venue_id` of every `week` row,
      provided the request date is at most the week end as text. */
  function WeekSkipIds(skips: seq<SkipRow>, date: string, weekEnd: string): (ids: seq<Option<int>>)
    ensures forall x :: x in ids <==>
              TextLe(date, weekEnd) && exists r :: r in skips && r.skipType == "week" && r.venueId == x
    ensures !TextLe(date, weekEnd) ==> ids == []
  {
    if skips == [] then []
    else
      var last := skips[|skips| - 1];
      var front := skips[..|skips| - 1];
      assert skips == front + [last];
      WeekSkipIds(front, date, weekEnd) + (if last.skipType == "week" && TextLe(date, weekEnd) then [last.venueId] else [])
  }

  /** SQL's `id NOT IN (ids)` is TRUE: no listed id equals `id`, and none is
      NULL (with a NULL in the list the test is NULL, which WHERE rejects). */
  predicate NotIn(id: int, ids: seq<Option<int>>) {
    forall x :: x in ids ==> x.Some? && x.value != id
  }

  /** The rows of the skip table leave the venue `id` in: no `week` row of any
      user names it or has a NULL venue, or the date test fails. */
  predicate Unskipped(id: int, skips: seq<SkipRow>, date: string, weekEnd: string) {
    forall r :: r in skips && r.skipType == "week" && TextLe(date, weekEnd) ==>
      r.venueId.Some? && r.venueId.value != id
  }

  /** The outer query's WHERE clause over the catalog, in catalog order. */
  function FilterBy(catalog: seq<Venue>, ids: seq<Option<int>>): (kept: seq<Venue>)
    ensures |kept| <= |catalog|
    ensures forall v :: v in kept <==> v in catalog && NotIn(v.id, ids)
  {
    if catalog == [] then []
    else (if NotIn(catalog[0].id, ids) then [catalog[0]] else []) + FilterBy(catalog[1..], ids)
  }

  /** The venues that server.py:59-60 fetches. */
  function Filter(catalog: seq<Venue>, skips: seq<SkipRow>, date: string, weekEnd: string): (kept: seq<Venue>)
    ensures |kept| <= |catalog|
    ensures forall v :: v in kept <==> v in catalog && Unskipped(v.id, skips, date, weekEnd)
  {
    var ids := WeekSkipIds(skips, date, weekEnd);
    forall id ensures NotIn(id, ids) <==> Unskipped(id, skips, date, weekEnd) {
      if NotIn(id, ids) {
        forall r | r in skips && r.skipType == "week" && TextLe(date, weekEnd)
          ensures r.venueId.Some? && r.venueId.value != id
        {
          assert r.venueId in ids;
        }
      }
    }
    FilterBy(catalog, ids)
  }

  /** `r` appears in `s` with its elements in the same order. */
  predicate IsSubsequence(r: seq<Venue>, s: seq<Venue>)
    decreases |s|
  {
    if r == [] then true
    else if s == [] then false
    else if r[0] == s[0] then IsSubsequence(r[1..], s[1..])
    else IsSubsequence(r, s[1..])
  }

  lemma {:induction false} FilterByKeepsOrder(catalog: seq<Venue>, ids: seq<Option<int>>)
    ensures IsSubsequence(FilterBy(catalog, ids), catalog)
  {
    if catalog != [] {
      var rest := FilterBy(catalog[1..], ids);
      FilterByKeepsOrder(catalog[1..], ids);
      if NotIn(catalog[0].id, ids) {
        assert FilterBy(catalog, ids) == [catalog[0]] + rest;
        assert ([catalog[0]] + rest)[1..] == rest;
      } else {
        assert FilterBy(catalog, ids) == rest;
        if rest != [] {
          assert rest[0] in rest;
          assert rest[0] != catalog[0];
        }
      }
    }
  }

  /** The filtered list keeps the catalog's order. */
  lemma FilterKeepsOrder(catalog: seq<Venue>, skips: seq<SkipRow>, date: string, weekEnd: string)
    ensures IsSubsequence(Filter(catalog, skips, date, weekEnd), catalog)
  {
    FilterByKeepsOrder(catalog, WeekSkipIds(skips, date, weekEnd));
  }

  lemma {:induction false} FilterByKeepsIdsDistinct(catalog: seq<Venue>, ids: seq<Option<int>>)
    requires DistinctIds(catalog)
    ensures DistinctIds(FilterBy(catalog, ids))
  {
    if catalog != [] {
      var rest := FilterBy(catalog[1..], ids);
      FilterByKeepsIdsDistinct(catalog[1..], ids);
      if NotIn(catalog[0].id, ids) {
        var kept := [catalog[0]] + rest;
        forall a, b | 0 <= a < b < |kept| ensures kept[a].id != kept[b].id {
          if a == 0 {
            assert kept[b] == rest[b - 1] && rest[b - 1] in catalog[1..];
          } else {
            assert kept[a] == rest[a - 1] && kept[b] == rest[b - 1];
          }
        }
      }
    }
  }

  /** A catalog without repeated ids yields a filtered list without repeated ids. */
  lemma FilterKeepsIdsDistinct(catalog: seq<Venue>, skips: seq<SkipRow>, date: string, weekEnd: string)
    requires DistinctIds(catalog)
    ensures DistinctIds(Filter(catalog, skips, date, weekEnd))
  {
    FilterByKeepsIdsDistinct(catalog, WeekSkipIds(skips, date, weekEnd));
  }

  /** Adding a rule of any type other than `week`, anywhere in the table, never
      changes what is fetched: the query of server.py:58 is discarded. */
  lemma {:induction false} OtherRuleTypesIgnored(catalog: seq<Venue>, before: seq<SkipRow>, row: SkipRow,
                                               after: seq<SkipRow>, date: string, weekEnd: string)
    requires row.skipType != "week"
    ensures Filter(catalog, before + [row] + after, date, weekEnd) == Filter(catalog, before + after, date, weekEnd)
  {
    IdsIgnoreOtherTypes(before, row, after, date, weekEnd);
  }

  lemma {:induction false} IdsIgnoreOtherTypes(before: seq<SkipRow>, row: SkipRow, after: seq<SkipRow>, date: string, weekEnd: string)
    requires row.skipType != "week"
    ensures WeekSkipIds(before + [row] + after, date, weekEnd) == WeekSkipIds(before + after, date, weekEnd)
    decreases |after|
  {
    if after == [] {
      assert before + [row] + after == before + [row];
      assert (before + [row])[..|before|] == before;
      assert before + after == before;
    } else {
      var front := after[..|after| - 1];
      var last := after[|after| - 1];
      IdsIgnoreOtherTypes(before, row, front, date, weekEnd);
      assert (before + [row] + after)[..|before| + 1 + |front|] == before + [row] + front;
      assert (before + after)[..|before| + |front|] == before + front;
    }
  }

  /** So a `forever` rule for a venue, added anywhere among rows that leave
      the venue in, does not keep it off the itinerary. */
  lemma ForeverRuleKeepsVenue(catalog: seq<Venue>, v: Venue, before: seq<SkipRow>, user: string,
                              after: seq<SkipRow>, date: string, weekEnd: string)
    requires v in catalog && Unskipped(v.id, before + after, date, weekEnd)
    ensures v in Filter(catalog, before + [SkipRow(user, Some(v.id), "forever", None)] + after, date, weekEnd)
  {
    OtherRuleTypesIgnored(catalog, before, SkipRow(user, Some(v.id), "forever", None), after, date, weekEnd);
  }

  /** A `week` row whose venue is NULL makes `NOT IN` NULL for every venue:
      nothing at all is fetched. */
  lemma NullWeekRowEmptiesCatalog(catalog: seq<Venue>, skips: seq<SkipRow>, date: string, weekEnd: string, r: SkipRow)
    requires r in skips && r.skipType == "week" && r.venueId.None? && TextLe(date, weekEnd)
    ensures Filter(catalog, skips, date, weekEnd) == []
  {
    assert None in WeekSkipIds(skips, date, weekEnd);
    FilterByNullEmpties(catalog, WeekSkipIds(skips, date, weekEnd));
  }

  lemma {:induction false} FilterByNullEmpties(catalog: seq<Venue>, ids: seq<Option<int>>)
    requires None in ids
    ensures FilterBy(catalog, ids) == []
  {
    if catalog != [] {
      FilterByNullEmpties(catalog[1..], ids);
    }
  }

  lemma {:induction false} FilterByNothing(catalog: seq<Venue>)
    ensures FilterBy(catalog, []) == catalog
  {
    if catalog != [] {
      FilterByNothing(catalog[1..]);
    }
  }

  /** When the request date sorts after the week end as text, no rule applies
      and the whole catalog is fetched. */
  lemma DatesOutOfOrderKeepAll(catalog: seq<Venue>, skips: seq<SkipRow>, date: string, weekEnd: string)
    requires !TextLe(date, weekEnd)
    ensures Filter(catalog, skips, date, weekEnd) == catalog
  {
    FilterByNothing(catalog);
  }

  /** A date without zero padding passes the date parser, but sorts after its
      zero-padded week end, so week rules then have no effect. */
  lemma UnpaddedDateDisablesWeekRules()
    ensures !TextLe("2025-8-3", "2025-08-10")
  {
    assert "2025-8-3"[5..] == "8-3" && "2025-08-10"[5..] == "08-10";
    assert !TextLe("8-3", "08-10");
  }
}
