/** The filter bar of `FilterBar.js`: a record of the chosen filters, replaced
    on every selection by a copy with one key set, and reported to the
    optional `onFilterChange` callback. The bar only records and reports the
    choice; applying it to the list is not its business. */
module Filtering {
  import opened Wrappers

  /** The filters record, from filter name to chosen value. */
  type Filters = map<string, string>

  /** The options each select offers, in their order on screen. */
  const StatusOptions: seq<string> := ["all", "success", "in_progress", "failed"]
  const EnvironmentOptions: seq<string> := ["all", "production", "staging", "development"]
  const SortOptions: seq<string> := ["newest", "oldest", "duration"]

  /** The state starts with both filters on "all" and no sort key: the sort
      select shows "newest" by default but records nothing until changed. */
  function InitialFilters(): (f: Filters)
    ensures f.Keys == {"status", "environment"} && f["status"] == "all" && f["environment"] == "all"
  {
    map["status" := "all", "environment" := "all"]
  }

  /** A selection the bar can make: a key with one of the values its select offers. */
  predicate Offered(key: string, value: string)
  {
    || (key == "status" && value in StatusOptions)
    || (key == "environment" && value in EnvironmentOptions)
    || (key == "sortBy" && value in SortOptions)
  }

  /** The records the bar can hold: both filters set, a sort key possibly, and
      every value one its select offers. */
  predicate WellFormed(f: Filters)
  {
    && "status" in f && "environment" in f
    && f.Keys <= {"status", "environment", "sortBy"}
    && forall k :: k in f ==> Offered(k, f[k])
  }

  /** `{ ...filters, [filterType]: value }`: only `key` changes, to `value`,
      and every other key keeps its value. */
  function ChangeFilter(f: Filters, key: string, value: string): (r: Filters)
    ensures r.Keys == f.Keys + {key} && r[key] == value
    ensures forall k :: k in f && k != key ==> r[k] == f[k]
  {
    f[key := value]
  }

  /** The state held by the filter bar, and whether the page gave it a callback. */
  class FilterBar {
    var filters: Filters
    const hasCallback: bool

    constructor(hasCallback: bool)
      ensures filters == InitialFilters() && this.hasCallback == hasCallback
    {
      filters := InitialFilters();
      this.hasCallback := hasCallback;
    }

    /** `handleFilterChange`: the record is replaced by the changed copy, and
        the callback, when there is one, receives exactly that copy. */
    method HandleFilterChange(filterType: string, value: string) returns (reported: Option<Filters>)
      modifies this
      ensures filters == ChangeFilter(old(filters), filterType, value)
      ensures reported == (if hasCallback then Some(filters) else None)
    {
      var newFilters := ChangeFilter(filters, filterType, value);
      filters := newFilters;
      if hasCallback {
        reported := Some(newFilters);
      } else {
        reported := None;
      }
    }
  }

  /** The bar starts well formed, and any selection it offers keeps it so. */
  lemma SelectionsKeepWellFormed(f: Filters, key: string, value: string)
    ensures WellFormed(InitialFilters())
    ensures WellFormed(f) && Offered(key, value) ==> WellFormed(ChangeFilter(f, key, value))
  {
    assert "all" in StatusOptions && "all" in EnvironmentOptions;
  }

  /** Making the same selection twice is making it once. */
  lemma ChangeIdempotent(f: Filters, key: string, value: string)
    ensures ChangeFilter(ChangeFilter(f, key, value), key, value) == ChangeFilter(f, key, value)
  {
  }

  /** The filters after a run of selections, oldest first. */
  function ApplyChanges(f: Filters, changes: seq<(string, string)>): Filters
  {
    if changes == [] then f
    else
      var (key, value) := changes[|changes| - 1];
      ChangeFilter(ApplyChanges(f, changes[..|changes| - 1]), key, value)
  }

  /** The value the last selection of `key` in `changes` chose, if any. */
  function LastChoice(changes: seq<(string, string)>, key: string): Option<string>
  {
    if changes == [] then None
    else if changes[|changes| - 1].0 == key then Some(changes[|changes| - 1].1)
    else LastChoice(changes[..|changes| - 1], key)
  }

  /** After a run of selections each key holds its last choice, and a key
      never chosen (the sort key, say, once set) is carried along unchanged. */
  lemma {:induction false} LastChoiceWins(f: Filters, changes: seq<(string, string)>, key: string)
    ensures key in ApplyChanges(f, changes) <==> key in f || LastChoice(changes, key).Some?
    ensures LastChoice(changes, key).Some? ==>
            key in ApplyChanges(f, changes) && ApplyChanges(f, changes)[key] == LastChoice(changes, key).value
    ensures LastChoice(changes, key).None? && key in f ==> ApplyChanges(f, changes)[key] == f[key]
  {
    if changes != [] {
      LastChoiceWins(f, changes[..|changes| - 1], key);
    }
  }
}
