/**
 * The debounced filter controller (`useDebouncedFilters`): a filter record,
 * a shadow copy of the last state a notification was delivered for, and a
 * scheduler with two deadlines. Every change re-arms the quiet-period
 * deadline; the max-wait deadline is armed once per burst. Whichever comes
 * first runs the compare-and-notify step and disarms both.
 *
 * Timers are deadlines (`debounceAt`, `batchAt`) in the same milliseconds as
 * `now`; `Tick(c, now)` runs a timer that is due by `now`.
 */
module DebouncedFilters {
  import opened Wrappers
  import opened JsValues

  const DefaultDebounceMs: int := 500
  const DefaultBatchTimeout: int := 1500
  const DefaultSort: string := "name"

  /** The filter record; `extra` holds the open-ended extension fields. */
  datatype FilterState = FilterState(
    searchQuery: string,
    selectedCategory: string,
    selectedPrice: string,
    selectedKeywords: seq<string>,
    sortBy: string,
    extra: map<string, JsValue>)

  /** The state before any initial filters are applied, and the one `clearAllFilters` restores. */
  const Defaults: FilterState := FilterState("", "", "", [], DefaultSort, map[])

  /** A `Partial<FilterState>`: absent fields are left alone by `Object.assign`. */
  datatype FilterPatch = FilterPatch(
    searchQuery: Option<string>,
    selectedCategory: Option<string>,
    selectedPrice: Option<string>,
    selectedKeywords: Option<seq<string>>,
    sortBy: Option<string>,
    extra: map<string, JsValue>)

  const EmptyPatch: FilterPatch := FilterPatch(None, None, None, None, None, map[])

  /** `Object.assign(f, patch)` (equivalently `{ ...f, ...patch }`). */
  function Assign(f: FilterState, patch: FilterPatch): (r: FilterState)
    ensures r.searchQuery == patch.searchQuery.GetOr(f.searchQuery)
    ensures r.selectedCategory == patch.selectedCategory.GetOr(f.selectedCategory)
    ensures r.selectedPrice == patch.selectedPrice.GetOr(f.selectedPrice)
    ensures r.selectedKeywords == patch.selectedKeywords.GetOr(f.selectedKeywords)
    ensures r.sortBy == patch.sortBy.GetOr(f.sortBy)
    ensures r.extra.Keys == f.extra.Keys + patch.extra.Keys
    // The patch's extension fields win over the target's.
    ensures forall k :: k in r.extra ==> r.extra[k] == (if k in patch.extra then patch.extra[k] else f.extra[k])
  {
    FilterState(
      patch.searchQuery.GetOr(f.searchQuery),
      patch.selectedCategory.GetOr(f.selectedCategory),
      patch.selectedPrice.GetOr(f.selectedPrice),
      patch.selectedKeywords.GetOr(f.selectedKeywords),
      patch.sortBy.GetOr(f.sortBy),
      f.extra + patch.extra)
  }

  /** The resolved configuration; `hasCallback` says whether `onFilterChange` was given. */
  datatype Config = Config(debounceMs: int, batchTimeout: int, hasCallback: bool)

  /** The configuration object as passed, with `undefined` for absent options. */
  datatype FilterOptions = FilterOptions(
    debounceMs: Option<int>,
    batchTimeout: Option<int>,
    hasCallback: bool,
    initialFilters: FilterPatch)

  /** Destructuring defaults apply only to `undefined`: an explicit 0 is kept. */
  function ResolveConfig(o: FilterOptions): (c: Config)
    ensures c.debounceMs == (if o.debounceMs.Some? then o.debounceMs.value else DefaultDebounceMs)
    ensures c.batchTimeout == (if o.batchTimeout.Some? then o.batchTimeout.value else DefaultBatchTimeout)
    ensures c.hasCallback == o.hasCallback
  {
    Config(o.debounceMs.GetOr(DefaultDebounceMs), o.batchTimeout.GetOr(DefaultBatchTimeout), o.hasCallback)
  }

  /** The whole controller state. */
  datatype Controller = Controller(
    config: Config,
    filters: FilterState,
    lastFilters: FilterState,
    debounceAt: Option<int>,
    batchAt: Option<int>,
    pending: bool)

  /** A step's new state and the copy passed to `onFilterChange`, if it was called. */
  datatype Step = Step(state: Controller, notified: Option<FilterState>)

  /** The composable as first created: initial filters applied, shadow copy equal, no timers. */
  function Create(o: FilterOptions): (c: Controller)
    ensures c.filters == c.lastFilters == Assign(Defaults, o.initialFilters)
    ensures c.debounceAt.None? && c.batchAt.None? && !c.pending
    ensures c.config == ResolveConfig(o)
  {
    var f := Assign(Defaults, o.initialFilters);
    Controller(ResolveConfig(o), f, f, None, None, false)
  }

  // ---------------------------------------------------------------------
  // Change detection
  // ---------------------------------------------------------------------

  /** `every((k, i) => k === previous[i])` on two keyword lists of equal length. */
  predicate EveryMatches(a: seq<string>, b: seq<string>)
    requires |a| == |b|
  {
    |a| == 0 || (a[0] == b[0] && EveryMatches(a[1..], b[1..]))
  }

  lemma {:induction false} EveryMatchesIff(a: seq<string>, b: seq<string>)
    requires |a| == |b|
    ensures EveryMatches(a, b) <==> a == b
  {
    if |a| > 0 {
      EveryMatchesIff(a[1..], b[1..]);
      assert a == [a[0]] + a[1..] && b == [b[0]] + b[1..];
    }
  }

  /** `hasFiltersChanged`: compare the four scalar fields, then the keyword lists by length and position. */
  function HasFiltersChanged(current: FilterState, previous: FilterState): (changed: bool)
    // A change is reported exactly when the five core fields differ, keyword order included.
    ensures changed <==> Core(current) != Core(previous)
  {
    if current.searchQuery != previous.searchQuery
       || current.selectedCategory != previous.selectedCategory
       || current.selectedPrice != previous.selectedPrice
       || current.sortBy != previous.sortBy then true
    else if |current.selectedKeywords| != |previous.selectedKeywords| then true
    else
      EveryMatchesIff(current.selectedKeywords, previous.selectedKeywords);
      !EveryMatches(current.selectedKeywords, previous.selectedKeywords)
  }

  /** The five fields change detection looks at; extension fields are not among them. */
  function Core(f: FilterState): (string, string, string, seq<string>, string) {
    (f.searchQuery, f.selectedCategory, f.selectedPrice, f.selectedKeywords, f.sortBy)
  }

  /** Extension fields never count as a change. */
  lemma ExtensionFieldsIgnored(current: FilterState, previous: FilterState, extra: map<string, JsValue>)
    ensures HasFiltersChanged(current.(extra := extra), previous) == HasFiltersChanged(current, previous)
  {
  }

  /** `executeFilterChange`: on a real change, copy the filters to the shadow and notify with that copy. */
  function ExecuteFilterChange(c: Controller): (r: Step)
    ensures !HasFiltersChanged(c.filters, c.lastFilters) ==> r == Step(c, None)
    ensures HasFiltersChanged(c.filters, c.lastFilters) ==>
              && r.state == c.(lastFilters := c.filters)
              && r.notified == (if c.config.hasCallback then Some(c.filters) else None)
    ensures !HasFiltersChanged(r.state.filters, r.state.lastFilters)
  {
    if !HasFiltersChanged(c.filters, c.lastFilters) then Step(c, None)
    else
      var copy := c.filters;
      Step(c.(lastFilters := copy), if c.config.hasCallback then Some(copy) else None)
  }

  // ---------------------------------------------------------------------
  // The scheduler
  // ---------------------------------------------------------------------

  /** `setTimeout` runs a callback with a negative delay as if the delay were 0. */
  function Delay(ms: int): (d: nat)
    ensures ms >= 0 ==> d == ms
    ensures ms < 0 ==> d == 0
  {
    if ms < 0 then 0 else ms
  }

  /** `clearTimers`: disarm both deadlines. */
  function ClearTimers(c: Controller): (r: Controller)
    ensures r.debounceAt.None? && r.batchAt.None?
    ensures r.filters == c.filters && r.lastFilters == c.lastFilters && r.pending == c.pending && r.config == c.config
  {
    c.(debounceAt := None, batchAt := None)
  }

  /** The relation between a controller and the one `scheduleFilterChange` at `now` leaves. */
  ghost predicate Scheduled(c: Controller, r: Controller, now: int) {
    && r.pending
    && r.debounceAt == Some(now + Delay(c.config.debounceMs))
    && r.batchAt == (if c.batchAt.Some? then c.batchAt else Some(now + Delay(c.config.batchTimeout)))
    && r.config == c.config
    && r.lastFilters == c.lastFilters
  }

  /** `scheduleFilterChange`: always re-arm the quiet period; arm the max wait only if it is not armed. */
  function ScheduleFilterChange(c: Controller, now: int): (r: Controller)
    ensures Scheduled(c, r, now) && r.filters == c.filters
  {
    var debounce := Some(now + Delay(c.config.debounceMs));
    var batch := if c.batchAt.Some? then c.batchAt else Some(now + Delay(c.config.batchTimeout));
    c.(pending := true, debounceAt := debounce, batchAt := batch)
  }

  /** The earlier of the armed deadlines. */
  function NextDeadline(c: Controller): (d: Option<int>)
    ensures d.None? <==> c.debounceAt.None? && c.batchAt.None?
    ensures d.Some? && c.debounceAt.Some? ==> d.value <= c.debounceAt.value
    ensures d.Some? && c.batchAt.Some? ==> d.value <= c.batchAt.value
    ensures d.Some? ==> d == c.debounceAt || d == c.batchAt
  {
    match (c.debounceAt, c.batchAt)
    case (Some(a), Some(b)) => Some(if a <= b then a else b)
    case (Some(a), None) => Some(a)
    case (None, Some(b)) => Some(b)
    case (None, None) => None
  }

  /** The body both timers run: compare and notify, clear `pendingChanges`, disarm both. */
  function Fire(c: Controller): (r: Step)
    ensures r.state.debounceAt.None? && r.state.batchAt.None? && !r.state.pending
    ensures r.state.filters == c.filters && r.state.config == c.config
    ensures !HasFiltersChanged(r.state.filters, r.state.lastFilters)
    ensures r.state.lastFilters == if HasFiltersChanged(c.filters, c.lastFilters) then c.filters else c.lastFilters
    // `onFilterChange` is called only when it is registered and the filters changed.
    ensures r.notified.Some? <==> c.config.hasCallback && HasFiltersChanged(c.filters, c.lastFilters)
    ensures r.notified.Some? ==> r.notified.value == c.filters
  {
    var s := ExecuteFilterChange(c);
    Step(ClearTimers(s.state.(pending := false)), s.notified)
  }

  /** Time reaches `now`: the earliest due timer fires (and cancels the other); otherwise nothing happens. */
  function Tick(c: Controller, now: int): (r: Step)
    ensures NextDeadline(c).None? || now < NextDeadline(c).value ==> r == Step(c, None)
    ensures NextDeadline(c).Some? && NextDeadline(c).value <= now ==> r == Fire(c)
    ensures NextDeadline(c).Some? && NextDeadline(c).value <= now ==>
              r.state.debounceAt.None? && r.state.batchAt.None? && !r.state.pending
              && !HasFiltersChanged(r.state.filters, r.state.lastFilters)
  {
    match NextDeadline(c)
    case Some(d) => if d <= now then Fire(c) else Step(c, None)
    case None => Step(c, None)
  }

  /**
   * One burst: starting with no max-wait deadline, a run of schedules at
   * `times` (each step related by `Scheduled`) keeps the max-wait deadline
   * the first schedule armed, so the next firing is no later than
   * `times[0] + batchTimeout`.
   */
  lemma {:induction false} BurstFiresByBatchDeadline(cs: seq<Controller>, times: seq<int>)
    requires |times| > 0 && |cs| == |times| + 1
    requires cs[0].batchAt.None?
    requires forall i :: 0 <= i < |times| ==> Scheduled(cs[i], cs[i + 1], times[i])
    ensures cs[|times|].config == cs[0].config
    ensures cs[|times|].lastFilters == cs[0].lastFilters
    ensures cs[|times|].batchAt == Some(times[0] + Delay(cs[0].config.batchTimeout))
    ensures NextDeadline(cs[|times|]).Some?
    ensures NextDeadline(cs[|times|]).value <= times[0] + Delay(cs[0].config.batchTimeout)
    decreases |times|
  {
    if |times| > 1 {
      BurstFiresByBatchDeadline(cs[..|times|], times[..|times| - 1]);
      var n := |times| - 1;
      assert Scheduled(cs[n], cs[n + 1], times[n]);
    }
  }

  /**
   * What a burst delivers: once its next deadline has passed (by
   * `BurstFiresByBatchDeadline`, at the latest the max-wait deadline the
   * first schedule armed), the controller has fired, and it notified exactly
   * when a callback is registered and the latest filters differ from those
   * last notified before the burst; the notification carries the latest
   * filters.
   */
  lemma BurstDelivers(cs: seq<Controller>, times: seq<int>, now: int)
    requires |times| > 0 && |cs| == |times| + 1
    requires cs[0].batchAt.None?
    requires forall i :: 0 <= i < |times| ==> Scheduled(cs[i], cs[i + 1], times[i])
    requires NextDeadline(cs[|times|]).Some? && NextDeadline(cs[|times|]).value <= now
    ensures var last := cs[|times|];
            var r := Tick(last, now);
            && r.state.debounceAt.None? && r.state.batchAt.None? && !r.state.pending
            && r.state.filters == last.filters
            && (r.notified.Some? <==> cs[0].config.hasCallback && HasFiltersChanged(last.filters, cs[0].lastFilters))
            && (r.notified.Some? ==> r.notified.value == last.filters)
  {
    BurstFiresByBatchDeadline(cs, times);
  }

  /** After a firing, a further tick with no change in between does nothing. */
  lemma FiresOnce(c: Controller, now: int, later: int)
    requires NextDeadline(c).Some? && NextDeadline(c).value <= now
    ensures Tick(Tick(c, now).state, later) == Step(Tick(c, now).state, None)
  {
  }

  // ---------------------------------------------------------------------
  // Setters
  // ---------------------------------------------------------------------

  function SetSearchQuery(c: Controller, query: string, now: int): (r: Controller)
    ensures Scheduled(c, r, now) && r.filters == c.filters.(searchQuery := query)
  {
    ScheduleFilterChange(c.(filters := c.filters.(searchQuery := query)), now)
  }

  function SetCategory(c: Controller, category: string, now: int): (r: Controller)
    ensures Scheduled(c, r, now) && r.filters == c.filters.(selectedCategory := category)
  {
    ScheduleFilterChange(c.(filters := c.filters.(selectedCategory := category)), now)
  }

  function SetPrice(c: Controller, price: string, now: int): (r: Controller)
    ensures Scheduled(c, r, now) && r.filters == c.filters.(selectedPrice := price)
  {
    ScheduleFilterChange(c.(filters := c.filters.(selectedPrice := price)), now)
  }

  function SetSortBy(c: Controller, sort: string, now: int): (r: Controller)
    ensures Scheduled(c, r, now) && r.filters == c.filters.(sortBy := sort)
  {
    ScheduleFilterChange(c.(filters := c.filters.(sortBy := sort)), now)
  }

  /** No keyword occurs twice. */
  predicate NoDuplicates(s: seq<string>) {
    forall i, j :: 0 <= i < j < |s| ==> s[i] != s[j]
  }

  /** `addKeyword`: append an absent keyword and schedule; a present keyword changes nothing and schedules nothing. */
  function AddKeyword(c: Controller, keyword: string, now: int): (r: Controller)
    ensures keyword in c.filters.selectedKeywords ==> r == c
    ensures keyword !in c.filters.selectedKeywords ==>
              && Scheduled(c, r, now)
              && r.filters == c.filters.(selectedKeywords := c.filters.selectedKeywords + [keyword])
    ensures keyword in r.filters.selectedKeywords
    ensures NoDuplicates(c.filters.selectedKeywords) ==> NoDuplicates(r.filters.selectedKeywords)
  {
    var kws := c.filters.selectedKeywords;
    if keyword in kws then c
    else
      var added := kws + [keyword];
      assert added[|kws|] == keyword;
      ScheduleFilterChange(c.(filters := c.filters.(selectedKeywords := added)), now)
  }

  /** `selectedKeywords.filter(k => k !== keyword)`. */
  function Without(s: seq<string>, keyword: string): (r: seq<string>)
    ensures keyword !in r
    ensures forall x :: x != keyword ==> multiset(r)[x] == multiset(s)[x]
    ensures |r| <= |s|
    ensures keyword !in s ==> r == s
  {
    if |s| == 0 then []
    else
      assert s == [s[0]] + s[1..];
      if s[0] == keyword then Without(s[1..], keyword) else [s[0]] + Without(s[1..], keyword)
  }

  /** Removal keeps the relative order of the remaining keywords: it distributes over concatenation. */
  lemma {:induction false} WithoutConcat(a: seq<string>, b: seq<string>, keyword: string)
    ensures Without(a + b, keyword) == Without(a, keyword) + Without(b, keyword)
  {
    if |a| > 0 {
      WithoutConcat(a[1..], b, keyword);
      assert (a + b)[1..] == a[1..] + b;
    } else {
      assert a + b == b;
    }
  }

  /** `removeKeyword`: drop every occurrence and schedule, whether or not the keyword was there. */
  function RemoveKeyword(c: Controller, keyword: string, now: int): (r: Controller)
    ensures Scheduled(c, r, now)
    ensures r.filters == c.filters.(selectedKeywords := Without(c.filters.selectedKeywords, keyword))
    ensures keyword !in r.filters.selectedKeywords
  {
    ScheduleFilterChange(c.(filters := c.filters.(selectedKeywords := Without(c.filters.selectedKeywords, keyword))), now)
  }

  /** `toggleKeyword`: remove a present keyword, add an absent one. */
  function ToggleKeyword(c: Controller, keyword: string, now: int): (r: Controller)
    ensures keyword in c.filters.selectedKeywords <==> keyword !in r.filters.selectedKeywords
    ensures Scheduled(c, r, now)
    ensures r == (if keyword in c.filters.selectedKeywords then RemoveKeyword(c, keyword, now) else AddKeyword(c, keyword, now))
  {
    if keyword in c.filters.selectedKeywords then RemoveKeyword(c, keyword, now) else AddKeyword(c, keyword, now)
  }

  function ClearKeywords(c: Controller, now: int): (r: Controller)
    ensures Scheduled(c, r, now) && r.filters == c.filters.(selectedKeywords := [])
  {
    ScheduleFilterChange(c.(filters := c.filters.(selectedKeywords := [])), now)
  }

  /** `clearAllFilters`: a fresh default record (extension fields dropped), then schedule. */
  function ClearAllFilters(c: Controller, now: int): (r: Controller)
    ensures Scheduled(c, r, now) && r.filters == Defaults
    ensures !HasActiveFilters(r.filters) && ActiveFiltersCount(r.filters) == 0
  {
    ScheduleFilterChange(c.(filters := Defaults), now)
  }

  /** `setFilters`: `Object.assign` the patch, then schedule. */
  function SetFilters(c: Controller, patch: FilterPatch, now: int): (r: Controller)
    ensures Scheduled(c, r, now) && r.filters == Assign(c.filters, patch)
  {
    ScheduleFilterChange(c.(filters := Assign(c.filters, patch)), now)
  }

  /** `applyFiltersNow`: disarm both deadlines, compare and notify at once, clear `pendingChanges`. */
  function ApplyFiltersNow(c: Controller): (r: Step)
    ensures r.state.debounceAt.None? && r.state.batchAt.None? && !r.state.pending
    ensures r.state.filters == c.filters && r.state.config == c.config
    ensures r.state.lastFilters == if HasFiltersChanged(c.filters, c.lastFilters) then c.filters else c.lastFilters
    ensures !HasFiltersChanged(r.state.filters, r.state.lastFilters)
    ensures r.notified.Some? <==> c.config.hasCallback && HasFiltersChanged(c.filters, c.lastFilters)
    ensures r.notified.Some? ==> r.notified.value == c.filters
  {
    var s := ExecuteFilterChange(ClearTimers(c));
    Step(s.state.(pending := false), s.notified)
  }

  /** Applying at once does what either timer would have done: the same state and the same notification. */
  lemma ApplyFiltersNowIsFire(c: Controller)
    ensures ApplyFiltersNow(c) == Fire(c)
  {
  }

  // ---------------------------------------------------------------------
  // Derived values
  // ---------------------------------------------------------------------

  /** `hasActiveFilters`: some search text, category, price or keyword is set (sort does not count). */
  function HasActiveFilters(f: FilterState): (active: bool)
    ensures active <==> ActiveGroups(f) != {}
  {
    f.searchQuery != "" || f.selectedCategory != "" || f.selectedPrice != "" || |f.selectedKeywords| > 0
  }

  /** The four filter groups `activeFiltersCount` looks at. */
  datatype Group = SearchGroup | CategoryGroup | PriceGroup | KeywordsGroup

  /** Whether group `g` is set in `f`. */
  predicate GroupSet(f: FilterState, g: Group) {
    match g
    case SearchGroup => f.searchQuery != ""
    case CategoryGroup => f.selectedCategory != ""
    case PriceGroup => f.selectedPrice != ""
    case KeywordsGroup => |f.selectedKeywords| > 0
  }

  /** The groups that are set. */
  function ActiveGroups(f: FilterState): (gs: set<Group>)
    ensures forall g :: g in gs <==> GroupSet(f, g)
  {
    FlagGroupsMembers(f.searchQuery != "", f.selectedCategory != "", f.selectedPrice != "", |f.selectedKeywords| > 0);
    FlagGroups(f.searchQuery != "", f.selectedCategory != "", f.selectedPrice != "", |f.selectedKeywords| > 0)
  }

  /** `{g}` when `active` holds, and nothing otherwise. */
  function GroupIf(active: bool, g: Group): (gs: set<Group>)
    ensures |gs| == if active then 1 else 0
    ensures forall x :: x in gs <==> active && x == g
  {
    if active then {g} else {}
  }

  /** Adding a group that is not yet present (when `active`) grows a set by one. */
  lemma AddGroupSize(t: set<Group>, active: bool, g: Group)
    requires g !in t
    ensures |t + GroupIf(active, g)| == |t| + (if active then 1 else 0)
  {
    if active {
      assert t + GroupIf(active, g) == t + {g};
    } else {
      assert t + GroupIf(active, g) == t;
    }
  }

  /** The groups switched on by four flags, one per group. */
  function FlagGroups(search: bool, category: bool, price: bool, keywords: bool): set<Group> {
    GroupIf(search, SearchGroup) + GroupIf(category, CategoryGroup)
    + GroupIf(price, PriceGroup) + GroupIf(keywords, KeywordsGroup)
  }

  /** A group is switched on exactly when its own flag holds. */
  lemma FlagGroupsMembers(search: bool, category: bool, price: bool, keywords: bool)
    ensures forall g :: g in FlagGroups(search, category, price, keywords) <==>
              match g
              case SearchGroup => search
              case CategoryGroup => category
              case PriceGroup => price
              case KeywordsGroup => keywords
  {
    var gs := FlagGroups(search, category, price, keywords);
    forall g
      ensures g in gs <==> match g
                           case SearchGroup => search
                           case CategoryGroup => category
                           case PriceGroup => price
                           case KeywordsGroup => keywords
    {
      assert g in GroupIf(search, SearchGroup) <==> search && g == SearchGroup;
      assert g in GroupIf(category, CategoryGroup) <==> category && g == CategoryGroup;
      assert g in GroupIf(price, PriceGroup) <==> price && g == PriceGroup;
      assert g in GroupIf(keywords, KeywordsGroup) <==> keywords && g == KeywordsGroup;
    }
  }

  /** Four distinct groups: the set has one member per flag that holds. */
  lemma {:induction false} FlagGroupsSize(search: bool, category: bool, price: bool, keywords: bool)
    ensures |FlagGroups(search, category, price, keywords)|
         == (if search then 1 else 0) + (if category then 1 else 0)
          + (if price then 1 else 0) + (if keywords then 1 else 0)
  {
    var t1 := GroupIf(search, SearchGroup);
    AddGroupSize(t1, category, CategoryGroup);
    var t2 := t1 + GroupIf(category, CategoryGroup);
    AddGroupSize(t2, price, PriceGroup);
    var t3 := t2 + GroupIf(price, PriceGroup);
    AddGroupSize(t3, keywords, KeywordsGroup);
  }

  /** `activeFiltersCount`: how many of the four filter groups are set. */
  function ActiveFiltersCount(f: FilterState): (n: nat)
    ensures n == |ActiveGroups(f)|
    ensures n <= 4
    ensures n > 0 <==> HasActiveFilters(f)
    ensures n == 4 <==> f.searchQuery != "" && f.selectedCategory != "" && f.selectedPrice != "" && |f.selectedKeywords| > 0
  {
    FlagGroupsSize(f.searchQuery != "", f.selectedCategory != "", f.selectedPrice != "", |f.selectedKeywords| > 0);
    (if f.searchQuery != "" then 1 else 0)
    + (if f.selectedCategory != "" then 1 else 0)
    + (if f.selectedPrice != "" then 1 else 0)
    + (if |f.selectedKeywords| > 0 then 1 else 0)
  }

  // ---------------------------------------------------------------------
  // Query-string mapping
  // ---------------------------------------------------------------------

  /** A route query value: a string, a repeated parameter, or a bare name (`null`). */
  datatype QueryValue = QStr(s: string) | QList(items: seq<string>) | QNull

  type Query = map<string, QueryValue>

  predicate QTruthy(v: QueryValue) {
    match v
    case QStr(s) => s != ""
    case QList(_) => true
    case QNull => false
  }

  /** `getQueryParams`: non-empty fields only, keywords only when there are some, sort only when not "name". */
  function GetQueryParams(f: FilterState): (q: Query)
    ensures "search" in q <==> f.searchQuery != ""
    ensures "category" in q <==> f.selectedCategory != ""
    ensures "price" in q <==> f.selectedPrice != ""
    ensures "keywords" in q <==> |f.selectedKeywords| > 0
    ensures "sort" in q <==> f.sortBy != DefaultSort
    ensures q.Keys <= {"search", "category", "price", "keywords", "sort"}
    ensures "search" in q ==> q["search"] == QStr(f.searchQuery)
    ensures "category" in q ==> q["category"] == QStr(f.selectedCategory)
    ensures "price" in q ==> q["price"] == QStr(f.selectedPrice)
    ensures "keywords" in q ==> q["keywords"] == QList(f.selectedKeywords)
    ensures "sort" in q ==> q["sort"] == QStr(f.sortBy)
  {
    var q1: Query := if f.searchQuery != "" then map["search" := QStr(f.searchQuery)] else map[];
    var q2 := if f.selectedCategory != "" then q1["category" := QStr(f.selectedCategory)] else q1;
    var q3 := if f.selectedPrice != "" then q2["price" := QStr(f.selectedPrice)] else q2;
    var q4 := if |f.selectedKeywords| > 0 then q3["keywords" := QList(f.selectedKeywords)] else q3;
    if f.sortBy != DefaultSort then q4["sort" := QStr(f.sortBy)] else q4
  }

  /** The scalar parameters read by `initFromQuery` hold a single value. */
  predicate ScalarParams(q: Query) {
    forall name :: name in q && name in {"search", "category", "price", "sort"} ==> !q[name].QList?
  }

  /** The value of a scalar parameter if it is truthy. */
  function ScalarOf(q: Query, name: string): Option<string>
    requires ScalarParams(q)
  {
    if name in q && QTruthy(q[name]) && name in {"search", "category", "price", "sort"} then Some(q[name].s) else None
  }

  /** `query.keywords`, with a single string coerced to a one-element list. */
  function KeywordsOf(q: Query): (r: Option<seq<string>>)
    ensures "keywords" in q && q["keywords"].QStr? && q["keywords"].s != "" ==> r == Some([q["keywords"].s])
    ensures "keywords" in q && q["keywords"].QList? ==> r == Some(q["keywords"].items)
    ensures "keywords" !in q || !QTruthy(q["keywords"]) ==> r.None?
  {
    if "keywords" !in q || !QTruthy(q["keywords"]) then None
    else match q["keywords"]
      case QList(items) => Some(items)
      case QStr(s) => Some([s])
  }

  /** `initFromQuery`: assign the truthy parameters and make the shadow copy equal, without scheduling. */
  function InitFromQuery(c: Controller, q: Query): (r: Controller)
    requires ScalarParams(q)
    ensures r.lastFilters == r.filters
    ensures r.debounceAt == c.debounceAt && r.batchAt == c.batchAt && r.pending == c.pending && r.config == c.config
    ensures r.filters.extra == c.filters.extra
    ensures "search" in q && QTruthy(q["search"]) ==> r.filters.searchQuery == q["search"].s
    ensures !("search" in q && QTruthy(q["search"])) ==> r.filters.searchQuery == c.filters.searchQuery
    ensures "category" in q && QTruthy(q["category"]) ==> r.filters.selectedCategory == q["category"].s
    ensures !("category" in q && QTruthy(q["category"])) ==> r.filters.selectedCategory == c.filters.selectedCategory
    ensures "price" in q && QTruthy(q["price"]) ==> r.filters.selectedPrice == q["price"].s
    ensures !("price" in q && QTruthy(q["price"])) ==> r.filters.selectedPrice == c.filters.selectedPrice
    ensures "sort" in q && QTruthy(q["sort"]) ==> r.filters.sortBy == q["sort"].s
    ensures !("sort" in q && QTruthy(q["sort"])) ==> r.filters.sortBy == c.filters.sortBy
    ensures r.filters.selectedKeywords == KeywordsOf(q).GetOr(c.filters.selectedKeywords)
  {
    var patch := FilterPatch(ScalarOf(q, "search"), ScalarOf(q, "category"), ScalarOf(q, "price"),
                             KeywordsOf(q), ScalarOf(q, "sort"), map[]);
    var f := Assign(c.filters, patch);
    assert f.extra == c.filters.extra;
    c.(filters := f, lastFilters := f)
  }

  /**
   * The query string round-trips through a fresh controller: every core
   * field comes back, provided the sort is not the empty string (an empty
   * `sort` is falsy and is not read back).
   */
  lemma QueryRoundTrip(f: FilterState, o: FilterOptions)
    requires o.initialFilters == EmptyPatch
    requires f.sortBy != ""
    ensures ScalarParams(GetQueryParams(f))
    ensures Core(InitFromQuery(Create(o), GetQueryParams(f)).filters) == Core(f)
  {
    var q := GetQueryParams(f);
    assert ScalarParams(q);
  }

  /** A single `keywords` value is read as a one-element list. */
  lemma ScalarKeywordCoerced(c: Controller, q: Query, keyword: string)
    requires ScalarParams(q) && "keywords" in q && q["keywords"] == QStr(keyword) && keyword != ""
    ensures InitFromQuery(c, q).filters.selectedKeywords == [keyword]
  {
  }

  // ---------------------------------------------------------------------
  // Scenarios with the default delays
  // ---------------------------------------------------------------------

  const ScenarioOptions: FilterOptions := FilterOptions(None, None, true, EmptyPatch)

  /**
   * Typing "a", "ab", "abc" at 0, 300 and 600 ms: nothing is due at 1099 ms,
   * and at 1100 ms exactly one notification carries the final text.
   */
  lemma TypingBurstScenario()
    ensures var c1 := SetSearchQuery(Create(ScenarioOptions), "a", 0);
            var c2 := SetSearchQuery(c1, "ab", 300);
            var c3 := SetSearchQuery(c2, "abc", 600);
            && Tick(c3, 1099) == Step(c3, None)
            && Tick(c3, 1100).notified == Some(Defaults.(searchQuery := "abc"))
  {
    var c1 := SetSearchQuery(Create(ScenarioOptions), "a", 0);
    assert c1.debounceAt == Some(500) && c1.batchAt == Some(1500);
    var c2 := SetSearchQuery(c1, "ab", 300);
    assert c2.debounceAt == Some(800) && c2.batchAt == Some(1500);
    var c3 := SetSearchQuery(c2, "abc", 600);
    assert c3.debounceAt == Some(1100) && c3.batchAt == Some(1500);
    assert c3.filters == Defaults.(searchQuery := "abc") && c3.lastFilters == Defaults;
  }

  /**
   * A change every 400 ms never leaves a 500 ms quiet period; the max-wait
   * deadline still delivers the latest state at 1500 ms.
   */
  lemma ContinuousChangesScenario()
    ensures var c1 := SetSearchQuery(Create(ScenarioOptions), "a", 0);
            var c2 := SetSearchQuery(Tick(c1, 400).state, "ab", 400);
            var c3 := SetSearchQuery(Tick(c2, 800).state, "abc", 800);
            var c4 := SetSearchQuery(Tick(c3, 1200).state, "abcd", 1200);
            && Tick(c1, 400).notified.None? && Tick(c2, 800).notified.None? && Tick(c3, 1200).notified.None?
            && Tick(c4, 1500).notified == Some(Defaults.(searchQuery := "abcd"))
  {
    var c1 := SetSearchQuery(Create(ScenarioOptions), "a", 0);
    assert c1.debounceAt == Some(500) && c1.batchAt == Some(1500);
    assert Tick(c1, 400) == Step(c1, None);
    var c2 := SetSearchQuery(c1, "ab", 400);
    assert c2.debounceAt == Some(900) && c2.batchAt == Some(1500);
    assert Tick(c2, 800) == Step(c2, None);
    var c3 := SetSearchQuery(c2, "abc", 800);
    assert c3.debounceAt == Some(1300) && c3.batchAt == Some(1500);
    assert Tick(c3, 1200) == Step(c3, None);
    var c4 := SetSearchQuery(c3, "abcd", 1200);
    assert c4.debounceAt == Some(1700) && c4.batchAt == Some(1500);
    assert c4.filters == Defaults.(searchQuery := "abcd") && c4.lastFilters == Defaults;
  }

  /** Adding the same keyword twice keeps one copy, and the burst delivers one notification. */
  lemma DoubleAddScenario()
    ensures var c1 := AddKeyword(Create(ScenarioOptions), "x", 0);
            var c2 := AddKeyword(c1, "x", 10);
            var s := Tick(c2, 2000);
            && c2 == c1
            && s.state.filters.selectedKeywords == ["x"]
            && s.notified.Some?
            && Tick(s.state, 4000).notified.None?
  {
    var c1 := AddKeyword(Create(ScenarioOptions), "x", 0);
    assert c1.filters.selectedKeywords == ["x"] && c1.lastFilters == Defaults;
    assert c1.debounceAt == Some(500);
  }

  /** Hydrating from the query string arms nothing, so time passing delivers nothing. */
  lemma InitFromQueryScenario()
    ensures var c := InitFromQuery(Create(ScenarioOptions), map["search" := QStr("foo")]);
            && c.filters.searchQuery == "foo"
            && c.debounceAt.None? && c.batchAt.None?
            && Tick(c, 10000).notified.None?
  {
  }
}
