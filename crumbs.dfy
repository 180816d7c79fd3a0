/** The links of the breadcrumb bar (src/components/breadcrumbs.tsx). */
module Crumbs {
  import opened Strings

  /** A crumb; a missing `href` is `None`. */
  datatype Crumb = Crumb(name: string, href: Option<string>)

  /** The crumbs from position `from` on, of a bar of `total` crumbs. */
  function LinksFrom(crumbs: seq<Crumb>, from: nat): (r: seq<Crumb>)
    requires from <= |crumbs|
    ensures |r| == |crumbs| - from
    ensures forall i :: from <= i < |crumbs| ==> r[i - from].name == crumbs[i].name
    ensures forall i :: from <= i < |crumbs| ==>
      r[i - from].href == if crumbs[i].href.None? || crumbs[i].href.value == [] || i == |crumbs| - 1 then None else crumbs[i].href
    decreases |crumbs| - from
  {
    if from == |crumbs| then []
    else
      var c := crumbs[from];
      var href := if c.href.None? || c.href.value == [] || from == |crumbs| - 1 then None else c.href;
      [Crumb(c.name, href)] + LinksFrom(crumbs, from + 1)
  }

  /** `items`: the crumbs as they are linked. */
  function Links(crumbs: seq<Crumb>): (r: seq<Crumb>)
  {
    LinksFrom(crumbs, 0)
  }

  /** The bar keeps the names in their order; the last crumb, the current
      page, is never a link, nor is a crumb without an `href`; every other
      crumb keeps its link. */
  lemma LinksShape(crumbs: seq<Crumb>)
    ensures |Links(crumbs)| == |crumbs|
    ensures forall i :: 0 <= i < |crumbs| ==> Links(crumbs)[i].name == crumbs[i].name
    ensures crumbs != [] ==> Links(crumbs)[|crumbs| - 1].href.None?
    ensures forall i :: 0 <= i < |crumbs| && (crumbs[i].href.None? || crumbs[i].href.value == []) ==> Links(crumbs)[i].href.None?
    ensures forall i :: 0 <= i < |crumbs| - 1 && crumbs[i].href.Some? && crumbs[i].href.value != [] ==>
      Links(crumbs)[i].href == crumbs[i].href
  {
    var r := Links(crumbs);
    assert forall i :: 0 <= i < |crumbs| ==> r[i] == r[i - 0];
  }

  /** Only the links of the final crumbs change when a crumb is appended:
      the crumb that was last becomes a link again. */
  lemma AppendCrumb(crumbs: seq<Crumb>, c: Crumb)
    requires crumbs != [] && crumbs[|crumbs| - 1].href.Some? && crumbs[|crumbs| - 1].href.value != []
    ensures Links(crumbs + [c])[..|crumbs| - 1] == Links(crumbs)[..|crumbs| - 1]
    ensures Links(crumbs + [c])[|crumbs| - 1].href == crumbs[|crumbs| - 1].href
    ensures Links(crumbs)[|crumbs| - 1].href.None?
  {
    var s := crumbs + [c];
    LinksShape(s);
    LinksShape(crumbs);
    var n := |crumbs| - 1;
    assert s[n] == crumbs[n];
    assert forall i :: 0 <= i < n ==> s[i] == crumbs[i] && Links(s)[i] == Links(crumbs)[i];
  }
}
