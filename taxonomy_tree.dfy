/**
 * The taxonomy demo's search predicate: a term matches an item when, both
 * lower-cased, the term occurs in the item's name, common name or taxon.
 *
 * `toLowerCase` is Unicode-aware; here it maps the ASCII letters A-Z only.
 */
module TaxonomyTree {
  import opened TreeData

  /** The fields of a taxonomy record; its `children` are the node's child list. */
  datatype Taxon = Taxon(taxon: string, name: string, commonName: string)

  type TaxonomyItem = Node<Taxon>

  /** ASCII lower-casing of one character. */
  function LowerChar(c: char): (r: char)
    ensures !('A' <= r <= 'Z')
    ensures 'A' <= c <= 'Z' ==> r as int == c as int + 32
    ensures !('A' <= c <= 'Z') ==> r == c
  {
    if 'A' <= c <= 'Z' then (c as int - 'A' as int + 'a' as int) as char else c
  }

  /** `s.toLowerCase()`, character by character. */
  function ToLower(s: string): (r: string)
    ensures |r| == |s|
    ensures forall i :: 0 <= i < |s| ==> r[i] == LowerChar(s[i])
    ensures forall i :: 0 <= i < |r| ==> !('A' <= r[i] <= 'Z')
  {
    seq(|s|, i requires 0 <= i < |s| => LowerChar(s[i]))
  }

  /** `needle` occurs in `hay` at some position. */
  ghost predicate IsSubstring(needle: string, hay: string)
  {
    exists i :: 0 <= i <= |hay| - |needle| && needle <= hay[i..]
  }

  /** `hay.includes(needle)`: try each starting position from the left. */
  function Includes(hay: string, needle: string): (r: bool)
    ensures r <==> IsSubstring(needle, hay)
    decreases |hay|
  {
    if needle <= hay then
      assert needle <= hay[0..];
      true
    else if |hay| <= |needle| then
      false
    else
      var r := Includes(hay[1..], needle);
      assert forall i :: 1 <= i <= |hay| ==> hay[1..][i - 1..] == hay[i..];
      r
  }

  /** `searchFilter(item, term)`: the lower-cased term occurs in one of the three lower-cased fields. */
  function SearchFilter(item: TaxonomyItem, term: string): (r: bool)
    ensures r <==> || IsSubstring(ToLower(term), ToLower(item.payload.name))
                   || IsSubstring(ToLower(term), ToLower(item.payload.commonName))
                   || IsSubstring(ToLower(term), ToLower(item.payload.taxon))
  {
    var searchTerm := ToLower(term);
    || Includes(ToLower(item.payload.name), searchTerm)
    || Includes(ToLower(item.payload.commonName), searchTerm)
    || Includes(ToLower(item.payload.taxon), searchTerm)
  }

  /** The empty term matches every item. */
  lemma EmptyTermMatchesAll(item: TaxonomyItem)
    ensures SearchFilter(item, "")
  {
    assert ToLower("") == "";
    assert "" <= ToLower(item.payload.name)[0..];
  }

  /** Two terms that differ only in the case of their letters. */
  ghost predicate SameIgnoringCase(a: string, b: string)
  {
    |a| == |b| && forall i :: 0 <= i < |a| ==> LowerChar(a[i]) == LowerChar(b[i])
  }

  /** Changing the case of letters in the term never changes the answer. */
  lemma SearchFilterIgnoresCase(item: TaxonomyItem, a: string, b: string)
    requires SameIgnoringCase(a, b)
    ensures SearchFilter(item, a) == SearchFilter(item, b)
  {
    assert ToLower(a) == ToLower(b);
  }

  /** Lower-casing twice is lower-casing once. */
  lemma ToLowerIdempotent(s: string)
    ensures ToLower(ToLower(s)) == ToLower(s)
  {
  }

  /** In particular, lower-casing the term first changes nothing. */
  lemma SearchFilterOfLowered(item: TaxonomyItem, term: string)
    ensures SearchFilter(item, ToLower(term)) == SearchFilter(item, term)
  {
    SearchFilterIgnoresCase(item, ToLower(term), term);
  }

  /** A piece of a substring is a substring. */
  lemma SubstringOfSubstring(needle: string, hay: string, i: nat, j: nat)
    requires IsSubstring(needle, hay)
    requires i <= j <= |needle|
    ensures IsSubstring(needle[i..j], hay)
  {
    var k :| 0 <= k <= |hay| - |needle| && needle <= hay[k..];
    assert needle[i..j] <= hay[k + i..];
  }

  /** If a term matches an item, so does every substring of the term. */
  lemma SubstringOfTermMatches(item: TaxonomyItem, term: string, i: nat, j: nat)
    requires SearchFilter(item, term)
    requires i <= j <= |term|
    ensures SearchFilter(item, term[i..j])
  {
    var lowered := ToLower(term);
    assert ToLower(term[i..j]) == lowered[i..j];
    if IsSubstring(lowered, ToLower(item.payload.name)) {
      SubstringOfSubstring(lowered, ToLower(item.payload.name), i, j);
    } else if IsSubstring(lowered, ToLower(item.payload.commonName)) {
      SubstringOfSubstring(lowered, ToLower(item.payload.commonName), i, j);
    } else {
      SubstringOfSubstring(lowered, ToLower(item.payload.taxon), i, j);
    }
  }
}
