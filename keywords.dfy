/** The ordered keyword table that both categorisers search: a list of
    (category, keywords) pairs in dictionary insertion order, and the
    first-match search over it. */
module Keywords {
  import opened Text
  import opened Options

  datatype Entry = Entry(name: string, keywords: seq<string>)

  type Table = seq<Entry>

  /** The text both categorisers search: the four fields joined by single
      spaces, as the f-string `"{a} {b} {c} {d}"` builds it. */
  function CombinedText(a: string, b: string, c: string, d: string): (r: string)
    ensures |r| == |a| + |b| + |c| + |d| + 3
    ensures r[..|a|] == a && r[|a|] == ' '
  {
    a + " " + b + " " + c + " " + d
  }

  /** `keyword.lower() in combined_text`, where `lowered` is already lower case. */
  predicate KeywordHits(keyword: string, lowered: string) {
    Contains(lowered, LowerStr(keyword))
  }

  /** Some keyword of the entry occurs in the lowered text. */
  predicate EntryMatches(e: Entry, lowered: string) {
    exists k :: 0 <= k < |e.keywords| && KeywordHits(e.keywords[k], lowered)
  }

  /** The position of the first entry, in table order, that has a keyword
      occurring in the lowered text. */
  function FirstMatch(table: Table, lowered: string): (r: Option<nat>)
    ensures r.Some? ==> r.value < |table| && EntryMatches(table[r.value], lowered)
    ensures r.Some? ==> forall j :: 0 <= j < r.value ==> !EntryMatches(table[j], lowered)
    ensures r.None? <==> forall j :: 0 <= j < |table| ==> !EntryMatches(table[j], lowered)
  {
    if table == [] then None
    else if EntryMatches(table[0], lowered) then Some(0)
    else match FirstMatch(table[1..], lowered)
      case None => None
      case Some(i) => Some(i + 1)
  }

  /** The first match depends only on the entries up to and including it:
      entries after a matching one are never consulted. */
  lemma {:induction false} FirstMatchPrefix(table: Table, rest: Table, lowered: string)
    requires FirstMatch(table, lowered).Some?
    ensures FirstMatch(table + rest, lowered) == FirstMatch(table, lowered)
  {
    if !EntryMatches(table[0], lowered) {
      assert (table + rest)[1..] == table[1..] + rest;
      FirstMatchPrefix(table[1..], rest, lowered);
    }
  }
}
