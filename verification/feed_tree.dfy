/**
 * An already-parsed feed document, reduced to what the required-element check
 * looks at: each element's tag and its direct children, in document order.
 * ElementTree's `find` and `findall` with a plain tag name only look at direct
 * children, and that is all this module offers.
 */
module FeedTree {
  import opened Optional

  datatype Element = Element(tag: string, children: seq<Element>)

  /** Some direct child of `e` carries the tag `tag`. */
  predicate HasChild(e: Element, tag: string)
  {
    exists i :: 0 <= i < |e.children| && e.children[i].tag == tag
  }

  /** Index of the first element of `cs` tagged `tag`, or `|cs|` when there is none. */
  function FirstIndex(cs: seq<Element>, tag: string): (r: nat)
    ensures r <= |cs|
    ensures r < |cs| ==> cs[r].tag == tag
    ensures forall j :: 0 <= j < r ==> cs[j].tag != tag
  {
    if cs == [] then 0
    else if cs[0].tag == tag then 0
    else 1 + FirstIndex(cs[1..], tag)
  }

  /** `e.find(tag)`: the first direct child with that tag, or nothing. */
  function Find(e: Element, tag: string): (r: Option<Element>)
    ensures r.None? <==> !HasChild(e, tag)
    ensures r.Some? ==> r.value.tag == tag && r.value in e.children
    ensures r.Some? ==> exists i :: 0 <= i < |e.children| && e.children[i] == r.value &&
                         forall j :: 0 <= j < i ==> e.children[j].tag != tag
  {
    var i := FirstIndex(e.children, tag);
    if i < |e.children| then Some(e.children[i]) else None
  }

  /** The elements of `cs` tagged `tag`, in their original order. */
  function Filter(cs: seq<Element>, tag: string): (r: seq<Element>)
    ensures |r| <= |cs|
    ensures forall k :: 0 <= k < |r| ==> r[k].tag == tag && r[k] in cs
    ensures forall i :: 0 <= i < |cs| && cs[i].tag == tag ==> cs[i] in r
    ensures r == [] <==> forall i :: 0 <= i < |cs| ==> cs[i].tag != tag
  {
    if cs == [] then []
    else (if cs[0].tag == tag then [cs[0]] else []) + Filter(cs[1..], tag)
  }

  /** `Filter` keeps every copy of a matching element and drops every copy of the others. */
  lemma {:induction false} FilterMultiplicity(cs: seq<Element>, tag: string, x: Element)
    ensures multiset(Filter(cs, tag))[x] == if x.tag == tag then multiset(cs)[x] else 0
  {
    if cs != [] {
      assert cs == [cs[0]] + cs[1..];
      FilterMultiplicity(cs[1..], tag, x);
    }
  }

  /** `e.findall(tag)`: every direct child with that tag, in document order. */
  function FindAll(e: Element, tag: string): (r: seq<Element>)
    ensures forall k :: 0 <= k < |r| ==> r[k].tag == tag && r[k] in e.children
    ensures forall i :: 0 <= i < |e.children| && e.children[i].tag == tag ==> e.children[i] in r
    ensures r == [] <==> !HasChild(e, tag)
  {
    Filter(e.children, tag)
  }
}
