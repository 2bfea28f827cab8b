/** Counts kept in a table, zero for what is not listed. */
module Tallies {

  function CountOf(counts: map<string, nat>, key: string): nat { if key in counts then counts[key] else 0 }
}
