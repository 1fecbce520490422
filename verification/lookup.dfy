/** The case-insensitive lookup of a game's release year in the reference
    table (`lookup_release_year`). */
module Lookup {
  import opened Wrappers
  import opened Text
  import opened Tables
  import opened Mask

  /** The mask `years['Name'].str.lower() == key.lower()`. */
  function NameIs(key: string): RefRow -> bool {
    (row: RefRow) => Lower(row.name) == Lower(key)
  }

  /** The Year of the first reference row whose name equals `key` up to case;
      None when no row matches (or when that row's Year is itself missing). */
  function LookupReleaseYear(key: string, years: seq<RefRow>): (r: Option<Year>)
    ensures r.Some? ==> exists i :: IsFirst(years, NameIs(key), i) && years[i].year == r
    ensures forall i :: IsFirst(years, NameIs(key), i) ==> r == years[i].year
    ensures (forall i :: 0 <= i < |years| ==> Lower(years[i].name) != Lower(key)) ==> r == None
  {
    match Head(years, NameIs(key))
    case None => None
    case Some(row) => row.year
  }

  /** Every reference row carries a Year. */
  ghost predicate AllYearsKnown(years: seq<RefRow>) {
    forall i :: 0 <= i < |years| ==> years[i].year.Some?
  }

  /** With a complete reference table, the lookup finds nothing exactly when
      no name matches up to case. */
  lemma LookupNoneIff(key: string, years: seq<RefRow>)
    requires AllYearsKnown(years)
    ensures LookupReleaseYear(key, years) == None
            <==> forall i :: 0 <= i < |years| ==> Lower(years[i].name) != Lower(key)
  {
    if exists k :: 0 <= k < |years| && Lower(years[k].name) == Lower(key) {
      var k :| 0 <= k < |years| && Lower(years[k].name) == Lower(key);
      FirstExists(years, NameIs(key), k);
    }
  }

  /** Keys that differ only in case give the same answer. */
  lemma LookupCaseInsensitive(k1: string, k2: string, years: seq<RefRow>)
    requires Lower(k1) == Lower(k2)
    ensures LookupReleaseYear(k1, years) == LookupReleaseYear(k2, years)
  {
    HeadAgrees(years, NameIs(k1), NameIs(k2));
  }

  /** Looking up the lower-cased key is the same as looking up the key. */
  lemma LookupLowerKey(key: string, years: seq<RefRow>)
    ensures LookupReleaseYear(Lower(key), years) == LookupReleaseYear(key, years)
  {
    LowerIdempotent(key);
    LookupCaseInsensitive(Lower(key), key, years);
  }
}
