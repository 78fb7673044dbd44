/** The catalog of the recommendation route (`allActivities`) and the
    eligibility filter applied to it: an age rule driven by the record's age
    limit text and an English-level rule driven by its language. */
module Eligibility {
  import opened JsValues
  import opened AgeRange

  /** A catalog record: a JavaScript object, property name to value. */
  type Record = map<string, Value>

  /** `record.name`: an absent property reads as `undefined`. */
  function Get(r: Record, name: string): Value {
    if name in r then r[name] else Undefined
  }

  const Hackathons: string := "Хакатоны"
  const Essays: string := "Конкурсы эссе"
  const Startups: string := "Стартап конкурсы"
  const SummerPrograms: string := "Летние программы"

  /** The four static collections the catalog is built from. */
  datatype Collections = Collections(
    hackathons: seq<Record>,
    essays: seq<Record>,
    startups: seq<Record>,
    summerPrograms: seq<Record>)

  /** `r'` is `{ ...r, category }`: every property of `r` but `category`,
      and `category` set to the given name. */
  ghost predicate Tagged(r': Record, r: Record, category: string) {
    && r'.Keys == r.Keys + {"category"}
    && Get(r', "category") == Str(category)
    && forall name :: name != "category" ==> Get(r', name) == Get(r, name)
  }

  /** `rs.map(r => ({ ...r, category }))`. */
  function Tag(rs: seq<Record>, category: string): (t: seq<Record>)
    ensures |t| == |rs|
    ensures forall i :: 0 <= i < |rs| ==> Tagged(t[i], rs[i], category)
  {
    seq(|rs|, i requires 0 <= i < |rs| => rs[i]["category" := Str(category)])
  }

  /** `allActivities`: hackathons, essays, startups and summer programs, in
      that order, each record tagged with its collection's category. */
  function AllActivities(c: Collections): seq<Record> {
    Tag(c.hackathons, Hackathons) + Tag(c.essays, Essays)
      + Tag(c.startups, Startups) + Tag(c.summerPrograms, SummerPrograms)
  }

  /** The catalog is the four collections one after the other, each record
      tagged with its collection's category and otherwise unchanged. */
  lemma AllActivitiesLayout(c: Collections)
    ensures var all := AllActivities(c);
      && |all| == |c.hackathons| + |c.essays| + |c.startups| + |c.summerPrograms|
      && (forall i :: 0 <= i < |c.hackathons| ==>
            Tagged(all[i], c.hackathons[i], Hackathons))
      && (forall i :: 0 <= i < |c.essays| ==>
            Tagged(all[|c.hackathons| + i], c.essays[i], Essays))
      && (forall i :: 0 <= i < |c.startups| ==>
            Tagged(all[|c.hackathons| + |c.essays| + i], c.startups[i], Startups))
      && (forall i :: 0 <= i < |c.summerPrograms| ==>
            Tagged(all[|c.hackathons| + |c.essays| + |c.startups| + i], c.summerPrograms[i], SummerPrograms))
  {
    var h, e, st, sp := Tag(c.hackathons, Hackathons), Tag(c.essays, Essays),
      Tag(c.startups, Startups), Tag(c.summerPrograms, SummerPrograms);
    var all := AllActivities(c);
    assert all == h + e + st + sp;
    assert forall i :: 0 <= i < |h| ==> all[i] == h[i];
    assert forall i :: 0 <= i < |e| ==> all[|h| + i] == e[i];
    assert forall i :: 0 <= i < |st| ==> all[|h| + |e| + i] == st[i];
    assert forall i :: 0 <= i < |sp| ==> all[|h| + |e| + |st| + i] == sp[i];
  }

  /** Every record of `Tag(rs, category)` carries that category. */
  lemma TagCategory(rs: seq<Record>, category: string, k: int)
    requires 0 <= k < |rs|
    ensures Get(Tag(rs, category)[k], "category") == Str(category)
  {
  }

  /** Every catalog record carries one of the four category names. */
  lemma CatalogCategories(c: Collections, i: int)
    requires 0 <= i < |AllActivities(c)|
    ensures var category := Get(AllActivities(c)[i], "category");
      || category == Str(Hackathons) || category == Str(Essays)
      || category == Str(Startups) || category == Str(SummerPrograms)
  {
    var h, e, st, sp := Tag(c.hackathons, Hackathons), Tag(c.essays, Essays),
      Tag(c.startups, Startups), Tag(c.summerPrograms, SummerPrograms);
    var all := AllActivities(c);
    assert all == h + e + st + sp;
    if i < |h| {
      assert all[i] == h[i];
      TagCategory(c.hackathons, Hackathons, i);
    } else if i < |h| + |e| {
      assert all[i] == e[i - |h|];
      TagCategory(c.essays, Essays, i - |h|);
    } else if i < |h| + |e| + |st| {
      assert all[i] == st[i - |h| - |e|];
      TagCategory(c.startups, Startups, i - |h| - |e|);
    } else {
      assert all[i] == sp[i - |h| - |e| - |st|];
      TagCategory(c.summerPrograms, SummerPrograms, i - |h| - |e| - |st|);
    }
  }

  /** The five answers of the questionnaire, as the request body carries
      them (`undefined` when a property is missing). */
  datatype Profile = Profile(
    age: Value,
    grade: Value,
    interests: Value,
    englishLevel: Value,
    essaySkills: Value)

  /** `r.age_limit || r.ageLimit`. */
  function AgeLimit(r: Record): Value {
    Or(Get(r, "age_limit"), Get(r, "ageLimit"))
  }

  /** The age test of the filter callback holds against the record: its age
      limit is a non-empty string with a `min-max` range, and the user's
      age, read by `parseInt`, lies below `min` or above `max`. */
  predicate AgeExcludes(r: Record, age: Value) {
    var limit := AgeLimit(r);
    Truthy(limit) && limit.Str? &&
    match FirstRangeMatch(limit.s)
    case None => false
    case Some((g1, g2)) =>
      var minAge := ParseInt(g1);
      var maxAge := ParseInt(g2);
      var userAge := ParseInt(ToJsString(age));
      Less(userAge, minAge) || Less(maxAge, userAge)
  }

  const English: string := "Английский"
  const LowestTier: string := "A1-A2"

  /** What the language test does with a record. */
  datatype LanguageCheck = NoLanguageBar | LanguageBar | TypeError

  /** `r.language && r.language.includes('Английский') && englishLevel === 'A1-A2'`.
      `includes` is a substring test on a string and an element test on an
      array; any other truthy language has no `includes` method, and the
      call throws whatever the English level is. */
  function LanguageRule(r: Record, englishLevel: Value): LanguageCheck {
    var lang := Get(r, "language");
    if !Truthy(lang) then NoLanguageBar
    else match lang
      case Str(s) =>
        if Contains(s, English) && englishLevel == Str(LowestTier) then LanguageBar else NoLanguageBar
      case Arr(es) =>
        if Str(English) in es && englishLevel == Str(LowestTier) then LanguageBar else NoLanguageBar
      case _ => TypeError
  }

  /** What the filter callback does with a record. */
  datatype Verdict = Keep | Drop | Throws

  /** The filter callback: the age test first, then the language test. */
  function Judge(r: Record, p: Profile): Verdict {
    if AgeExcludes(r, p.age) then Drop
    else match LanguageRule(r, p.englishLevel)
      case TypeError => Throws
      case LanguageBar => Drop
      case NoLanguageBar => Keep
  }

  /** `xs.filter(callback)`, visiting the elements in order; `None` when
      the callback throws. */
  function FilterBy<T>(xs: seq<T>, callback: T -> Verdict): Option<seq<T>> {
    if xs == [] then Some([])
    else if callback(xs[0]) == Throws then None
    else match FilterBy(xs[1..], callback)
      case None => None
      case Some(t) => Some(if callback(xs[0]) == Keep then [xs[0]] + t else t)
  }

  /** `filteredActivities`; `None` when the callback throws, which ends the
      request with the server error. */
  function Filter(rs: seq<Record>, p: Profile): Option<seq<Record>> {
    FilterBy(rs, r => Judge(r, p))
  }

  // ---------------------------------------------------------------------------
  // The age rule

  /** The age rule in terms of the numbers the range denotes: the capture
      groups are read as decimal numbers, never NaN. */
  lemma AgeExcludesDecimal(r: Record, age: Value)
    ensures AgeExcludes(r, age) <==>
      && AgeLimit(r).Str?
      && FirstRangeMatch(AgeLimit(r).s).Some?
      && ParseInt(ToJsString(age)).Int?
      && var (g1, g2) := FirstRangeMatch(AgeLimit(r).s).value;
         var u := ParseInt(ToJsString(age)).i;
         u < DigitsValue(g1, 10) || u > DigitsValue(g2, 10)
  {
    var limit := AgeLimit(r);
    if limit.Str? && FirstRangeMatch(limit.s).Some? {
      var g1 := FirstRangeMatch(limit.s).value.0;
      var g2 := FirstRangeMatch(limit.s).value.1;
      FirstFromGroups(limit.s, 0);
      ParseIntOfGroup(g1);
      ParseIntOfGroup(g2);
      assert Truthy(limit);
      var u := ParseInt(ToJsString(age));
      assert AgeExcludes(r, age) == (Less(u, Int(DigitsValue(g1, 10))) || Less(Int(DigitsValue(g2, 10)), u));
    }
  }

  /** The age rule against the regular expression's own definition: when
      the leftmost `min-max` match of the record's age limit is at `i` and
      the user's age parses to `u`, the record is excluded exactly when
      `u < min` or `u > max`; both bounds are inclusive. */
  lemma AgeRuleByFirstMatch(r: Record, age: Value, s: string, i: int, g1: string, g2: string, u: int)
    requires AgeLimit(r) == Str(s)
    requires IsFirstMatch(s, i, g1, g2)
    requires ParseInt(ToJsString(age)) == Int(u)
    ensures AgeExcludes(r, age) <==> u < DigitsValue(g1, 10) || u > DigitsValue(g2, 10)
  {
    FirstRangeMatchSpec(s);
    AgeExcludesDecimal(r, age);
  }

  /** No age constraint applies when the age limit is not a string, when it
      holds no `min-max` range, or when the user's age does not parse. */
  lemma AgeRuleNoConstraint(r: Record, age: Value)
    requires
      || !AgeLimit(r).Str?
      || (forall i, a, b :: !Matches(AgeLimit(r).s, i, a, b))
      || ParseInt(ToJsString(age)) == NaN
    ensures !AgeExcludes(r, age)
  {
    if AgeLimit(r).Str? {
      FirstRangeMatchSpec(AgeLimit(r).s);
    }
  }

  /** `age_limit` wins over `ageLimit` whenever it is truthy. */
  lemma AgeLimitPrefersSnakeCase(r: Record)
    ensures Truthy(Get(r, "age_limit")) ==> AgeLimit(r) == Get(r, "age_limit")
    ensures !Truthy(Get(r, "age_limit")) ==> AgeLimit(r) == Get(r, "ageLimit")
  {
  }

  // ---------------------------------------------------------------------------
  // The language rule

  /** The language rule bars a record exactly when the English level is the
      literal "A1-A2" and the language mentions English: as a substring of
      a string, or as an element of an array. */
  lemma LanguageBarSpec(r: Record, englishLevel: Value)
    ensures LanguageRule(r, englishLevel) == LanguageBar <==>
      && englishLevel == Str(LowestTier)
      && ((Get(r, "language").Str? && exists i :: OccursAt(Get(r, "language").s, English, i))
          || (Get(r, "language").Arr? && Str(English) in Get(r, "language").elems))
  {
    var lang := Get(r, "language");
    if lang.Str? {
      ContainsIffOccurs(lang.s, English);
      if exists i :: OccursAt(lang.s, English, i) {
        var i :| OccursAt(lang.s, English, i);
        assert |lang.s| >= |English| > 0;
      }
    }
  }

  /** The language test throws exactly for a truthy language that is neither
      a string nor an array, whatever the English level. */
  lemma LanguageTypeErrorSpec(r: Record, englishLevel: Value)
    ensures LanguageRule(r, englishLevel) == TypeError <==>
      Truthy(Get(r, "language")) && !Get(r, "language").Str? && !Get(r, "language").Arr?
  {
  }

  /** The levels the questionnaire offers, "A1" and "A2" included, never bar
      a record on its language: only the literal "A1-A2" does. */
  lemma FormLevelsNeverBar(r: Record, level: string)
    requires level in ["A1", "A2", "B1", "B2", "C1", "C2"]
    ensures LanguageRule(r, Str(level)) != LanguageBar
  {
  }

  // ---------------------------------------------------------------------------
  // The filter

  /** `idx` lists, in increasing order, the positions in `xs` of the
      elements of `f`. */
  ghost predicate IsSelection<T>(f: seq<T>, xs: seq<T>, idx: seq<int>) {
    && |idx| == |f|
    && (forall k :: 0 <= k < |idx| ==> 0 <= idx[k] < |xs| && f[k] == xs[idx[k]])
    && (forall k, l :: 0 <= k < l < |idx| ==> idx[k] < idx[l])
  }

  function Shift(idx: seq<int>): (r: seq<int>)
    ensures |r| == |idx| && forall k :: 0 <= k < |idx| ==> r[k] == idx[k] + 1
  {
    seq(|idx|, k requires 0 <= k < |idx| => idx[k] + 1)
  }

  /** `filter` fails exactly when the callback throws on some element. */
  lemma {:induction false} FilterByThrows<T>(xs: seq<T>, callback: T -> Verdict)
    ensures FilterBy(xs, callback).None? <==> exists i :: 0 <= i < |xs| && callback(xs[i]) == Throws
  {
    if xs != [] && callback(xs[0]) != Throws {
      FilterByThrows(xs[1..], callback);
      if exists i :: 0 <= i < |xs| && callback(xs[i]) == Throws {
        var i :| 0 <= i < |xs| && callback(xs[i]) == Throws;
        assert callback(xs[1..][i - 1]) == Throws;
      }
    } else if xs != [] {
      assert callback(xs[0]) == Throws;
    }
  }

  lemma ShiftMembers(idx: seq<int>, i: int)
    requires forall k :: 0 <= k < |idx| ==> idx[k] >= 0
    ensures i in Shift(idx) <==> i > 0 && i - 1 in idx
  {
    var sh := Shift(idx);
    if i in sh {
      var k :| 0 <= k < |sh| && sh[k] == i;
      assert idx[k] == i - 1;
    }
    if i > 0 && i - 1 in idx {
      var k :| 0 <= k < |idx| && idx[k] == i - 1;
      assert sh[k] == i;
    }
  }

  /** Extending a selection of the tail of `xs` to one of `xs`. */
  lemma SelectionCons<T>(t: seq<T>, xs: seq<T>, idx': seq<int>, keep: bool)
    requires xs != [] && IsSelection(t, xs[1..], idx')
    ensures IsSelection(if keep then [xs[0]] + t else t, xs, if keep then [0] + Shift(idx') else Shift(idx'))
  {
    var sh := Shift(idx');
    assert forall k :: 0 <= k < |sh| ==> t[k] == xs[sh[k]];
  }

  /** `f` is the selection `idx` of `xs`, and the selected positions are
      exactly those whose element the callback accepts. */
  ghost predicate SelectsAccepted<T>(f: seq<T>, xs: seq<T>, callback: T -> Verdict, idx: seq<int>) {
    && IsSelection(f, xs, idx)
    && (forall k :: 0 <= k < |idx| ==> callback(xs[idx[k]]) == Keep)
    && (forall i {:trigger i in idx} :: 0 <= i < |xs| && callback(xs[i]) == Keep ==> i in idx)
  }

  lemma AcceptedAtCons<T>(xs: seq<T>, callback: T -> Verdict, idx': seq<int>)
    requires xs != []
    requires forall k :: 0 <= k < |idx'| ==> 0 <= idx'[k] < |xs| - 1 && callback(xs[1..][idx'[k]]) == Keep
    ensures var keep := callback(xs[0]) == Keep;
      var idx := if keep then [0] + Shift(idx') else Shift(idx');
      forall k :: 0 <= k < |idx| ==> callback(xs[idx[k]]) == Keep
  {
    var keep := callback(xs[0]) == Keep;
    var sh := Shift(idx');
    var idx := if keep then [0] + sh else sh;
    forall k | 0 <= k < |idx| ensures callback(xs[idx[k]]) == Keep {
      var k' := if keep then k - 1 else k;
      if k' >= 0 {
        assert idx[k] == idx'[k'] + 1;
        assert xs[idx[k]] == xs[1..][idx'[k']];
      }
    }
  }

  lemma AllAcceptedCons<T>(xs: seq<T>, callback: T -> Verdict, idx': seq<int>)
    requires xs != []
    requires forall k :: 0 <= k < |idx'| ==> idx'[k] >= 0
    requires forall i {:trigger i in idx'} :: 0 <= i < |xs| - 1 && callback(xs[1..][i]) == Keep ==> i in idx'
    ensures var keep := callback(xs[0]) == Keep;
      var idx := if keep then [0] + Shift(idx') else Shift(idx');
      forall i {:trigger i in idx} :: 0 <= i < |xs| && callback(xs[i]) == Keep ==> i in idx
  {
    var keep := callback(xs[0]) == Keep;
    var sh := Shift(idx');
    var idx := if keep then [0] + sh else sh;
    forall i | 0 <= i < |xs| && callback(xs[i]) == Keep ensures i in idx {
      ShiftMembers(idx', i);
      if i > 0 {
        assert xs[1..][i - 1] == xs[i];
        assert i - 1 in idx';
      }
    }
  }

  lemma SelectsAcceptedCons<T>(t: seq<T>, xs: seq<T>, callback: T -> Verdict, idx': seq<int>)
    requires xs != [] && SelectsAccepted(t, xs[1..], callback, idx')
    ensures var keep := callback(xs[0]) == Keep;
      SelectsAccepted(if keep then [xs[0]] + t else t, xs, callback,
                      if keep then [0] + Shift(idx') else Shift(idx'))
  {
    SelectionCons(t, xs, idx', callback(xs[0]) == Keep);
    AcceptedAtCons(xs, callback, idx');
    AllAcceptedCons(xs, callback, idx');
  }

  /** `filter` keeps the elements the callback accepts and no others, in
      order: its result is an order-preserving selection of `xs` whose
      positions are exactly those of the accepted elements. */
  lemma {:induction false} FilterBySelects<T>(xs: seq<T>, callback: T -> Verdict)
    requires FilterBy(xs, callback).Some?
    ensures exists idx :: SelectsAccepted(FilterBy(xs, callback).value, xs, callback, idx)
  {
    if xs == [] {
      assert SelectsAccepted([], xs, callback, []);
    } else {
      var t := FilterBy(xs[1..], callback).value;
      FilterBySelects(xs[1..], callback);
      var idx' :| SelectsAccepted(t, xs[1..], callback, idx');
      SelectsAcceptedCons(t, xs, callback, idx');
    }
  }

  /** The eligibility filter: it fails exactly when the callback throws on
      some catalog record; otherwise it returns, in catalog order, exactly
      the records that pass both the age and the language test. */
  lemma FilterSpec(rs: seq<Record>, p: Profile)
    ensures Filter(rs, p).None? <==> exists i :: 0 <= i < |rs| && Judge(rs[i], p) == Throws
    ensures Filter(rs, p).Some? ==> exists idx ::
      && IsSelection(Filter(rs, p).value, rs, idx)
      && (forall k :: 0 <= k < |idx| ==> Judge(rs[idx[k]], p) == Keep)
      && (forall i {:trigger i in idx} :: 0 <= i < |rs| && Judge(rs[i], p) == Keep ==> i in idx)
  {
    var callback := r => Judge(r, p);
    FilterByThrows(rs, callback);
    if Filter(rs, p).Some? {
      FilterBySelects(rs, callback);
      var idx :| SelectsAccepted(Filter(rs, p).value, rs, callback, idx);
      assert IsSelection(Filter(rs, p).value, rs, idx);
    }
  }

  /** The first `n` elements `filter` returns are accepted elements of
      `xs`, in order. */
  lemma FilterByPrefix<T>(xs: seq<T>, callback: T -> Verdict, n: nat)
    requires FilterBy(xs, callback).Some? && n <= |FilterBy(xs, callback).value|
    ensures exists idx: seq<int> ::
      && |idx| == n
      && (forall k :: 0 <= k < n ==>
            0 <= idx[k] < |xs| && callback(xs[idx[k]]) == Keep && FilterBy(xs, callback).value[k] == xs[idx[k]])
      && (forall k, l :: 0 <= k < l < n ==> idx[k] < idx[l])
  {
    FilterBySelects(xs, callback);
    var f := FilterBy(xs, callback).value;
    var idx :| SelectsAccepted(f, xs, callback, idx);
    var pre := idx[..n];
    assert forall k :: 0 <= k < n ==> pre[k] == idx[k];
    assert
      && |pre| == n
      && (forall k :: 0 <= k < n ==>
            0 <= pre[k] < |xs| && callback(xs[pre[k]]) == Keep && FilterBy(xs, callback).value[k] == xs[pre[k]])
      && (forall k, l :: 0 <= k < l < n ==> pre[k] < pre[l]);
  }

  /** `idx` lists, in increasing order, positions of `rs` whose record the
      filter callback keeps. */
  ghost predicate KeptPositions(rs: seq<Record>, p: Profile, idx: seq<int>) {
    && (forall k :: 0 <= k < |idx| ==> 0 <= idx[k] < |rs| && Judge(rs[idx[k]], p) == Keep)
    && (forall k, l :: 0 <= k < l < |idx| ==> idx[k] < idx[l])
  }

  /** The first `n` records of the filtered list are eligible catalog
      records, in catalog order. */
  lemma FilterPrefix(rs: seq<Record>, p: Profile, n: nat)
    requires Filter(rs, p).Some? && n <= |Filter(rs, p).value|
    ensures exists idx: seq<int> ::
      && KeptPositions(rs, p, idx) && |idx| == n
      && (forall k :: 0 <= k < |idx| ==> Filter(rs, p).value[k] == rs[idx[k]])
  {
    FilterByPrefix(rs, r => Judge(r, p), n);
    var f := Filter(rs, p).value;
    var idx: seq<int> :| && |idx| == n
      && (forall k :: 0 <= k < n ==>
            0 <= idx[k] < |rs| && Judge(rs[idx[k]], p) == Keep && f[k] == rs[idx[k]])
      && (forall k, l :: 0 <= k < l < n ==> idx[k] < idx[l]);
    assert KeptPositions(rs, p, idx);
  }
}
