/** The item list of a log or character page (src/components/items.tsx):
    quantity prefixes, sort names, and the consolidation of repeated grants
    into one entry with a summed quantity. */
module Items {
  import opened Strings
  import Sorting

  /** A magic item or story award as the list receives it. */
  datatype Item = Item(id: string, name: string, description: Option<string>)

  /** Number of leading ASCII digits of `s`. */
  function LeadingDigits(s: string): (n: nat)
    ensures n <= |s| && AllDigits(s[..n])
    ensures n < |s| ==> !IsDigit(s[n])
  {
    if s == [] || !IsDigit(s[0]) then 0
    else
      var n := 1 + LeadingDigits(s[1..]);
      assert s[..n] == [s[0]] + s[1..][..n - 1];
      n
  }

  /** Length of the match of `/^\d+x? ?/`, or 0 when `s` does not start with a digit. */
  function QtyPrefixLength(s: string): (n: nat)
    ensures n <= |s|
  {
    var d := LeadingDigits(s);
    if d == 0 then 0
    else
      var e := if d < |s| && s[d] == 'x' then d + 1 else d;
      if e < |s| && s[e] == ' ' then e + 1 else e
  }

  /** `clearQty`: drops a leading `\d+x? ?`, even when no space follows.
      After the digits the cut takes the longest of "x ", "x", " " and "". */
  function ClearQty(name: string): (r: string)
    ensures LeadingDigits(name) == 0 ==> r == name
    ensures LeadingDigits(name) > 0 ==> |r| < |name| && r == name[|name| - |r|..]
    ensures var d := LeadingDigits(name);
      d > 0 && d + 1 < |name| && name[d] == 'x' && name[d + 1] == ' ' ==> r == name[d + 2..]
    ensures var d := LeadingDigits(name);
      d > 0 && d < |name| && name[d] == 'x' && !(d + 1 < |name| && name[d + 1] == ' ') ==> r == name[d + 1..]
    ensures var d := LeadingDigits(name);
      d > 0 && d < |name| && name[d] == ' ' ==> r == name[d + 1..]
    ensures var d := LeadingDigits(name);
      d > 0 && (d == |name| || (name[d] != 'x' && name[d] != ' ')) ==> r == name[d..]
  {
    name[QtyPrefixLength(name)..]
  }

  /** True when `/^(\d+)x? /` matches: digits, an optional `x`, and a space. */
  predicate HasQtyPrefix(name: string) {
    var d := LeadingDigits(name);
    d > 0 && ((d < |name| && name[d] == ' ') || (d + 1 < |name| && name[d] == 'x' && name[d + 1] == ' '))
  }

  /** `itemQty`: the leading count of a name like "3x Potion" or "3 Potion", else 1. */
  function ItemQty(name: string): (q: nat)
    ensures !HasQtyPrefix(name) ==> q == 1
    ensures HasQtyPrefix(name) ==> q == DigitsValue(name[..LeadingDigits(name)])
  {
    if HasQtyPrefix(name) then DigitsValue(name[..LeadingDigits(name)]) else 1
  }

  /** The greatest position `k` with `1 <= k < m` and `s[k] == 's'`. */
  function LastSBefore(s: string, m: nat): (r: Option<nat>)
    requires m <= |s|
    ensures r.Some? ==> 1 <= r.value < m && s[r.value] == 's'
    ensures r.Some? ==> forall k :: r.value < k < m ==> s[k] != 's'
    ensures r.None? ==> forall k :: 1 <= k < m ==> s[k] != 's'
  {
    if m <= 1 then None
    else if s[m - 1] == 's' then Some(m - 1)
    else LastSBefore(s, m - 1)
  }

  /** `name.replace(/^(\w+)s/, "$1")`: the greedy `\w+` backs off to the last
      `s` of the leading word, not in first position, and that `s` is dropped. */
  function DropWordS(name: string): (r: string)
    ensures LastSBefore(name, WordRun(name)).None? ==> r == name
    ensures LastSBefore(name, WordRun(name)).Some? ==>
      var k := LastSBefore(name, WordRun(name)).value;
      |r| == |name| - 1 && r == name[..k] + name[k + 1..] && name[k] == 's'
  {
    match LastSBefore(name, WordRun(name))
    case None => name
    case Some(k) => name[..k] + name[k + 1..]
  }

  /** True when `/^(\w+)( .+)$/` matches: a leading word, a space, and at
      least one more character with no line terminator up to the end. */
  predicate WordThenRest(name: string) {
    var n := WordRun(name);
    && n > 0 && n + 1 < |name| && name[n] == ' '
    && forall i :: n < i < |name| ==> !IsLineTerminator(name[i])
  }

  /** `name.replace(/^(\w+)( .+)$/, "$1s$2")`: appends `s` to the leading word. */
  function PluralizeWord(name: string): (r: string)
    ensures !WordThenRest(name) ==> r == name
    ensures WordThenRest(name) ==>
      var n := WordRun(name); r == name[..n] + "s" + name[n..]
  {
    if WordThenRest(name) then name[..WordRun(name)] + "s" + name[WordRun(name)..] else name
  }

  predicate StartsWith(s: string, p: string) { |p| <= |s| && s[..|p|] == p }

  /** `name.replace(/^(A|An|The) /, "")`. */
  function DropArticle(name: string): (r: string)
    ensures StartsWith(name, "A ") ==> r == name[2..]
    ensures StartsWith(name, "An ") ==> r == name[3..]
    ensures StartsWith(name, "The ") ==> r == name[4..]
    ensures !StartsWith(name, "A ") && !StartsWith(name, "An ") && !StartsWith(name, "The ") ==> r == name
  {
    if StartsWith(name, "A ") then
      assert name[1] == ' ';
      name[2..]
    else if StartsWith(name, "An ") then
      assert name[1] == 'n';
      name[3..]
    else if StartsWith(name, "The ") then name[4..]
    else name
  }

  /** `sorterName`: with `sort` off the name itself; otherwise the four
      rewrites in the order the source applies them. */
  function SorterName(name: string, sort: bool): (r: string)
    ensures !sort ==> r == name
    ensures sort ==> r == DropArticle(DropWordS(ReplaceFirst(ClearQty(name), "Spell Scroll", "Scroll")))
  {
    if sort then DropArticle(DropWordS(ReplaceFirst(ClearQty(name), "Spell Scroll", "Scroll"))) else name
  }

  /** Length of the match of `\d+x? ` at the start of `s`, or 0 when there is none. */
  function CountPrefixLength(s: string): (n: nat)
    ensures n <= |s|
  {
    var d := LeadingDigits(s);
    if d == 0 then 0
    else if d < |s| && s[d] == ' ' then d + 1
    else if d + 1 < |s| && s[d] == 'x' && s[d + 1] == ' ' then d + 2
    else 0
  }

  const ConsumableWords: set<string> := {"Potion", "Scroll", "Spell Scroll", "Charm", "Elixir"}

  /** `isConsumable`: the trimmed name matches
      `/^(\d+x? )?((Potion|Scroll|Spell Scroll|Charm|Elixir)s? of)/`. */
  predicate IsConsumable(name: string) {
    var t := Trim(name);
    var u := t[CountPrefixLength(t)..];
    exists w :: w in ConsumableWords && (StartsWith(u, w + " of") || StartsWith(u, w + "s of"))
  }

  /** The text a missing description contributes to a key: `${undefined}`. */
  function DescriptionKey(description: Option<string>): string {
    match description
    case None => "undefined"
    case Some(d) => Trim(d)
  }

  /** The key under which an item's grants are merged: the name without its
      count, an underscore, and the trimmed description. */
  function ItemKey(item: Item): string {
    ClearQty(item.name) + "_" + DescriptionKey(item.description)
  }

  /** One element produced by the `.map` before the reduce. */
  datatype Row = Row(name: string, key: string, qty: nat, index: nat, cons: bool)

  /** The per-item record of items.tsx:52-66. */
  function RowOf(item: Item, index: nat, sort: bool): (r: Row)
    ensures r.index == index && r.name == ClearQty(item.name) && r.qty == ItemQty(item.name)
    ensures r.key == ItemKey(item)
  {
    var name := ClearQty(item.name);
    Row(name, ItemKey(item), ItemQty(item.name), index, IsConsumable(SorterName(name, sort)))
  }

  function Rows(items: seq<Item>, sort: bool): (rows: seq<Row>)
    ensures |rows| == |items|
    ensures forall i :: 0 <= i < |items| ==> rows[i].index == i
  {
    seq(|items|, i requires 0 <= i < |items| => RowOf(items[i], i, sort))
  }

  lemma RowsAt(items: seq<Item>, sort: bool, i: nat)
    requires i < |items|
    ensures |Rows(items, sort)| == |items| && Rows(items, sort)[i] == RowOf(items[i], i, sort)
  {
  }

  /** A leading article followed by a space is dropped, whatever follows. */
  lemma ArticleDropped(article: string, rest: string)
    requires article == "A" || article == "An" || article == "The"
    ensures DropArticle(article + " " + rest) == rest
  {
    var name := article + " " + rest;
    if article == "An" {
      assert name[1] == 'n';
    } else if article == "The" {
      assert name[0] == 'T';
    }
    assert name[|article| + 1..] == rest;
  }

  /** The sort name ignores a count prefix: "3x Potions of Healing" sorts
      with "Potions of Healing". */
  lemma SorterNameIgnoresCount(n: nat, sep: string, name: string, sort: bool)
    requires sep == " " || sep == "x "
    requires name == [] || !IsDigit(name[0])
    ensures sort ==> SorterName(NatToString(n) + sep + name, sort) == SorterName(name, sort)
  {
    CountReadsBack(n, sep, name);
    assert LeadingDigits(name) == 0;
  }

  /** A grant written with a count and the same grant written without one get
      the same key, name and consumable flag, with counts `n` and 1, so the
      reduce merges them. */
  lemma CountedGrantRow(n: nat, sep: string, a: Item, b: Item, i: nat, j: nat, sort: bool)
    requires sep == " " || sep == "x "
    requires b.name == [] || !IsDigit(b.name[0])
    requires a.name == NatToString(n) + sep + b.name && a.description == b.description
    ensures RowOf(a, i, sort).key == RowOf(b, j, sort).key
    ensures RowOf(a, i, sort).name == RowOf(b, j, sort).name == b.name
    ensures RowOf(a, i, sort).cons == RowOf(b, j, sort).cons
    ensures RowOf(a, i, sort).qty == n && RowOf(b, j, sort).qty == 1
  {
    CountReadsBack(n, sep, b.name);
    assert LeadingDigits(b.name) == 0;
  }

  lemma CountPrefixOf(prefix: string, n: nat, x: bool, u: string)
    requires prefix == "" || prefix == NatToString(n) + (if x then "x " else " ")
    requires u != [] && !IsDigit(u[0])
    ensures CountPrefixLength(prefix + u) == |prefix|
  {
    var name := prefix + u;
    if prefix == "" {
      assert name == u;
    } else {
      var digits := NatToString(n);
      var sep := if x then "x " else " ";
      assert name == digits + (sep + u);
      LeadingDigitsOfDigits(digits, sep + u);
      assert name[|digits|] == sep[0];
      if x {
        assert name[|digits| + 1] == ' ';
      }
    }
  }

  lemma StartsWithConcat(p: string, rest: string)
    ensures StartsWith(p + rest, p)
  {
    assert (p + rest)[..|p|] == p;
  }

  lemma CountedWordShape(name: string, prefix: string, n: nat, x: bool, w: string, ending: string, rest: string)
    requires prefix == "" || prefix == NatToString(n) + (if x then "x " else " ")
    requires w != [] && !IsDigit(w[0]) && !IsJsSpace(w[0])
    requires ending == " of" || ending == "s of"
    requires rest == [] || !IsJsSpace(rest[|rest| - 1])
    requires name == prefix + (w + ending + rest)
    ensures Trim(name) == name && CountPrefixLength(name) == |prefix| && StartsWith(name[|prefix|..], w + ending)
  {
    var u := w + ending + rest;
    assert u[0] == w[0];
    assert !IsJsSpace(name[|name| - 1]) by {
      if rest == [] {
        assert name[|name| - 1] == 'f';
      } else {
        assert name[|name| - 1] == rest[|rest| - 1];
      }
    }
    assert !IsJsSpace(name[0]) by {
      if prefix == "" {
        assert name[0] == w[0];
      } else {
        assert name[0] == NatToString(n)[0];
      }
    }
    TrimUnchanged(name);
    CountPrefixOf(prefix, n, x, u);
    assert name[|prefix|..] == u;
    StartsWithConcat(w + ending, rest);
  }

  lemma ConsumableWordStart(w: string)
    requires w in ConsumableWords
    ensures w != [] && IsAsciiUpper(w[0])
  {
  }

  lemma ConsumableAt(name: string, w: string, ending: string)
    requires w in ConsumableWords && (ending == " of" || ending == "s of")
    requires StartsWith(Trim(name)[CountPrefixLength(Trim(name))..], w + ending)
    ensures IsConsumable(name)
  {
  }

  /** A name made of an optional count, a consumable word, " of" or "s of",
      and a tail that does not end in white space, is consumable. */
  lemma ConsumableNames(prefix: string, n: nat, x: bool, w: string, plural: bool, rest: string)
    requires prefix == "" || prefix == NatToString(n) + (if x then "x " else " ")
    requires w in ConsumableWords
    requires rest == [] || !IsJsSpace(rest[|rest| - 1])
    ensures IsConsumable(prefix + w + (if plural then "s of" else " of") + rest)
  {
    var ending := if plural then "s of" else " of";
    ConsumableWordStart(w);
    var name := prefix + w + ending + rest;
    assert name == prefix + (w + ending + rest);
    CountedWordShape(name, prefix, n, x, w, ending, rest);
    ConsumableAt(name, w, ending);
  }

  lemma OccursAfterPrefix(t: string, c: nat, p: string, q: string)
    requires c <= |t| && StartsWith(t[c..], p + q)
    ensures OccursAt(t, q, c + |p|)
  {
    assert t[c + |p|..c + |p| + |q|] == t[c..][..|p + q|][|p|..];
  }

  /** A consumable name holds " of" after its count and its word. */
  lemma ConsumableHasOf(name: string)
    requires IsConsumable(name)
    ensures exists i :: 0 < i && OccursAt(Trim(name), " of", i)
  {
    var t := Trim(name);
    var c := CountPrefixLength(t);
    var w :| w in ConsumableWords && (StartsWith(t[c..], w + " of") || StartsWith(t[c..], w + "s of"));
    assert |w| > 0;
    if StartsWith(t[c..], w + " of") {
      OccursAfterPrefix(t, c, w, " of");
    } else {
      assert w + "s of" == (w + "s") + " of";
      OccursAfterPrefix(t, c, w + "s", " of");
    }
  }

  /** The state the reduce works on: `acc` holds positions in `cloned` (the
      pushed objects are the cloned items themselves, renamed in place), and
      `itemsMap` maps a key to a position in `acc`. */
  datatype PanelState = PanelState(acc: seq<nat>, cloned: seq<Item>, itemsMap: map<string, nat>)

  ghost predicate Wf(st: PanelState) {
    forall k :: 0 <= k < |st.acc| ==> st.acc[k] < |st.cloned|
  }

  /** The outcome of the reduce: the state reached, and the message of the
      `TypeError` thrown when a stale map entry points past the end of `acc`. */
  datatype RunResult = RunResult(state: PanelState, error: Option<string>)

  const UndefinedNameError := "TypeError: Cannot read properties of undefined (reading 'name')"

  /** The merge test of the source is `existingIndex && existingIndex >= 0`,
      false for position 0; `strict` is the corrected test `existingIndex !== undefined`. */
  predicate Merges(st: PanelState, row: Row, strict: bool) {
    row.key in st.itemsMap && (strict || st.itemsMap[row.key] != 0)
  }

  /** The base name a merge keeps: a consumable loses its plural `s`. */
  function MergedBase(row: Row): string {
    if row.cons then DropWordS(row.name) else row.name
  }

  /** What follows the count in a merged name: a space and the base name,
      pluralised again for a consumable. */
  function CountedTail(row: Row): (r: string)
    ensures r != [] && r[0] == ' '
  {
    " " + (if row.cons then PluralizeWord(MergedBase(row)) else MergedBase(row))
  }

  /** The name a merge gives the stored entry (items.tsx:71-82). */
  function MergedName(row: Row, existingQty: nat): string {
    var newQty := existingQty + row.qty;
    if newQty > 1 then NatToString(newQty) + CountedTail(row) else MergedBase(row)
  }

  lemma {:induction false} LeadingDigitsOfDigits(d: string, rest: string)
    requires AllDigits(d) && rest != [] && !IsDigit(rest[0])
    ensures LeadingDigits(d + rest) == |d|
  {
    if d != [] {
      assert (d + rest)[1..] == d[1..] + rest;
      LeadingDigitsOfDigits(d[1..], rest);
    }
  }

  /** A count written in front of " " or "x " is read back by `itemQty`,
      and `clearQty` leaves exactly what follows the separator. */
  lemma CountReadsBack(n: nat, sep: string, rest: string)
    requires sep == " " || sep == "x "
    ensures ItemQty(NatToString(n) + sep + rest) == n
    ensures ClearQty(NatToString(n) + sep + rest) == rest
  {
    var digits := NatToString(n);
    var name := digits + sep + rest;
    assert name == digits + (sep + rest);
    LeadingDigitsOfDigits(digits, sep + rest);
    assert name[|digits|] == sep[0];
    assert name[|digits|..] == sep + rest;
    if sep == "x " {
      assert name[|digits| + 1] == ' ';
    }
    assert HasQtyPrefix(name);
    assert name[..|digits|] == digits;
    DigitsValueOfNatToString(n);
  }

  /** A merge writes the summed count into the name, where `itemQty` reads
      it back on the next merge, and `clearQty` gives back the (re-pluralised)
      base name. */
  lemma MergedQty(row: Row, existingQty: nat)
    requires existingQty + row.qty > 1
    ensures ItemQty(MergedName(row, existingQty)) == existingQty + row.qty
    ensures ClearQty(MergedName(row, existingQty)) ==
      if row.cons then PluralizeWord(MergedBase(row)) else row.name
  {
    var tail := if row.cons then PluralizeWord(MergedBase(row)) else MergedBase(row);
    assert CountedTail(row) == " " + tail;
    assert MergedName(row, existingQty) == NatToString(existingQty + row.qty) + " " + tail;
    CountReadsBack(existingQty + row.qty, " ", tail);
  }

  lemma DropSAt(r: string, k: nat)
    requires 1 <= k && WordRun(r) == k + 1 && r[k] == 's'
    ensures DropWordS(r) == r[..k] + r[k + 1..]
  {
    assert LastSBefore(r, k + 1) == Some(k);
  }

  /** Pluralising the leading word and then dropping its last `s` gives the
      name back: the merge of a consumable undoes its own plural. */
  lemma DropPluralized(name: string)
    requires WordThenRest(name)
    ensures DropWordS(PluralizeWord(name)) == name
  {
    var n := WordRun(name);
    var w := name[..n] + "s";
    var r := w + name[n..];
    assert PluralizeWord(name) == r;
    WordRunAppend(w, name[n..]);
    DropSAt(r, n);
    assert r[..n] == name[..n] && r[n + 1..] == name[n..];
    assert name[..n] + name[n..] == name;
  }

  lemma WordThenRestShorter(name: string, n: nat)
    requires WordThenRest(name) && n == WordRun(name) && n >= 2
    ensures WordRun(name[..n - 1] + name[n..]) == n - 1
    ensures WordThenRest(name[..n - 1] + name[n..])
  {
    var d := name[..n - 1] + name[n..];
    WordRunAppend(name[..n - 1], name[n..]);
    assert d[n - 1] == name[n];
    forall i | n - 1 < i < |d|
      ensures !IsLineTerminator(d[i])
    {
      assert d[i] == name[i + 1];
    }
  }

  lemma Reassemble(s: string, k: nat)
    requires k < |s|
    ensures s[..k] + [s[k]] + s[k + 1..] == s
  {
  }

  /** Dropping the final `s` of a plural leading word and pluralising again
      gives the name back: merging "Potions of Healing" keeps that name. */
  lemma PluralizeDropped(name: string)
    requires WordThenRest(name) && WordRun(name) >= 2 && name[WordRun(name) - 1] == 's'
    ensures PluralizeWord(DropWordS(name)) == name
  {
    var n := WordRun(name);
    assert LastSBefore(name, n) == Some(n - 1);
    var w := name[..n - 1];
    var d := w + name[n..];
    assert DropWordS(name) == d;
    WordThenRestShorter(name, n);
    var p := PluralizeWord(d);
    assert p == d[..n - 1] + "s" + d[n - 1..];
    assert d[..n - 1] == w && d[n - 1..] == name[n..];
    assert p == w + [name[n - 1]] + name[n..];
    Reassemble(name, n - 1);
  }

  /** One step of the reduce (items.tsx:68-89). */
  function Step(st: PanelState, row: Row, strict: bool): (r: RunResult)
    requires Wf(st) && row.index < |st.cloned|
    ensures Wf(r.state) && |r.state.cloned| == |st.cloned|
    ensures r.error.Some? ==> r.state == st
    ensures !Merges(st, row, strict) ==>
      r.error.None? && r.state.acc == st.acc + [row.index] && r.state.cloned == st.cloned
      && r.state.itemsMap == st.itemsMap[row.key := |st.acc|]
    ensures Merges(st, row, strict) ==> r.state.acc == st.acc && r.state.itemsMap == st.itemsMap
    ensures r.error.Some? <==> Merges(st, row, strict) && st.itemsMap[row.key] >= |st.acc|
    ensures r.error.Some? ==> r.error == Some(UndefinedNameError)
    ensures Merges(st, row, strict) && st.itemsMap[row.key] < |st.acc| ==>
      var t := st.acc[st.itemsMap[row.key]];
      var entry := st.cloned[t];
      && r.state.cloned == st.cloned[t := entry.(name := MergedName(row, ItemQty(entry.name)))]
      && (ItemQty(entry.name) + row.qty > 1 ==> ItemQty(r.state.cloned[t].name) == ItemQty(entry.name) + row.qty)
  {
    if Merges(st, row, strict) then
      var e := st.itemsMap[row.key];
      if e >= |st.acc| then RunResult(st, Some(UndefinedNameError))
      else
        var t := st.acc[e];
        var existingQty := ItemQty(st.cloned[t].name);
        var name := MergedName(row, existingQty);
        if existingQty + row.qty > 1 then
          MergedQty(row, existingQty);
          RunResult(st.(cloned := st.cloned[t := st.cloned[t].(name := name)]), None)
        else
          RunResult(st.(cloned := st.cloned[t := st.cloned[t].(name := name)]), None)
    else
      RunResult(PanelState(st.acc + [row.index], st.cloned, st.itemsMap[row.key := |st.acc|]), None)
  }

  lemma StepMerge(st: PanelState, row: Row, renamed: Item)
    requires Wf(st) && row.index < |st.cloned| && Merges(st, row, false)
    requires st.itemsMap[row.key] < |st.acc|
    requires var t := st.acc[st.itemsMap[row.key]];
      renamed == st.cloned[t].(name := MergedName(row, ItemQty(st.cloned[t].name)))
    ensures Step(st, row, false)
      == RunResult(PanelState(st.acc, st.cloned[st.acc[st.itemsMap[row.key]] := renamed], st.itemsMap), None)
  {
  }

  lemma StepPush(st: PanelState, row: Row)
    requires Wf(st) && row.index < |st.cloned| && !Merges(st, row, false)
    ensures Step(st, row, false)
      == RunResult(PanelState(st.acc + [row.index], st.cloned, st.itemsMap[row.key := |st.acc|]), None)
  {
  }

  /** The whole reduce: stops at the first thrown error. */
  function Run(st: PanelState, rows: seq<Row>, strict: bool): (r: RunResult)
    requires Wf(st) && forall i :: 0 <= i < |rows| ==> rows[i].index < |st.cloned|
    ensures Wf(r.state) && |r.state.cloned| == |st.cloned|
    decreases |rows|
  {
    if rows == [] then RunResult(st, None)
    else
      var r := Step(st, rows[0], strict);
      if r.error.Some? then r else Run(r.state, rows[1..], strict)
  }

  lemma RunAfterStep(st: PanelState, rows: seq<Row>, strict: bool)
    requires Wf(st) && forall i :: 0 <= i < |rows| ==> rows[i].index < |st.cloned|
    requires rows != [] && Step(st, rows[0], strict).error.None?
    ensures Run(st, rows, strict) == Run(Step(st, rows[0], strict).state, rows[1..], strict)
  {
  }

  /** The objects `acc` refers to, in order. */
  function Entries(st: PanelState): (r: seq<Item>)
    requires Wf(st)
    ensures |r| == |st.acc|
  {
    seq(|st.acc|, k requires 0 <= k < |st.acc| && Wf(st) => st.cloned[st.acc[k]])
  }

  /** The corrected consolidation: a map that starts empty on every
      computation and a merge test that also accepts position 0. */
  function ConsolidateFixed(items: seq<Item>, sort: bool): (r: seq<Item>)
    ensures |r| <= |items|
  {
    var res := Run(PanelState([], items, map[]), Rows(items, sort), true);
    RunLength(PanelState([], items, map[]), Rows(items, sort), true);
    Entries(res.state)
  }

  /** `sortedItems`: ascending by `sorter(sorterName(a.name), sorterName(b.name))`
      when `sort` is on, the consolidated order otherwise. */
  function SortedItems(consolidated: seq<Item>, sort: bool): (r: seq<Item>)
    ensures multiset(r) == multiset(consolidated)
    ensures !sort ==> r == consolidated
  {
    if sort then Sorting.SortBy(consolidated, (it: Item) => Sorting.Key(0, SorterName(it.name, true)))
    else consolidated
  }

  lemma SortedItemsOrdered(consolidated: seq<Item>)
    ensures Sorting.SortedBy(SortedItems(consolidated, true), (it: Item) => Sorting.Key(0, SorterName(it.name, true)))
  {
    Sorting.SortBySorted(consolidated, (it: Item) => Sorting.Key(0, SorterName(it.name, true)));
  }

  // ---------------------------------------------------------------------
  // Properties of the reduce

  /** Every map entry points inside `acc`. */
  ghost predicate MapInBounds(st: PanelState) {
    forall key :: key in st.itemsMap ==> st.itemsMap[key] < |st.acc|
  }

  /** The positions in `acc` strictly increase and all precede `bound`. */
  ghost predicate Increasing(acc: seq<nat>, bound: nat) {
    (forall k :: 0 <= k < |acc| ==> acc[k] < bound)
    && forall j, k :: 0 <= j < k < |acc| ==> acc[j] < acc[k]
  }

  ghost predicate RowsFrom(rows: seq<Row>, start: nat, n: nat) {
    forall i :: 0 <= i < |rows| ==> rows[i].index == start + i && rows[i].index < n
  }

  lemma {:induction false} RunLength(st: PanelState, rows: seq<Row>, strict: bool)
    requires Wf(st) && forall i :: 0 <= i < |rows| ==> rows[i].index < |st.cloned|
    ensures |Run(st, rows, strict).state.acc| <= |st.acc| + |rows|
    decreases |rows|
  {
    if rows != [] {
      var r := Step(st, rows[0], strict);
      if r.error.None? { RunLength(r.state, rows[1..], strict); }
    }
  }

  /** With a map whose entries all point inside `acc` (in particular an
      empty one) the reduce never throws, keeps that property, and appends
      positions in increasing order: the output is in first-seen order. */
  lemma {:induction false} RunInBounds(st: PanelState, rows: seq<Row>, start: nat, strict: bool)
    requires Wf(st) && MapInBounds(st) && RowsFrom(rows, start, |st.cloned|)
    requires Increasing(st.acc, start)
    ensures Run(st, rows, strict).error.None?
    ensures MapInBounds(Run(st, rows, strict).state)
    ensures Increasing(Run(st, rows, strict).state.acc, start + |rows|)
    decreases |rows|
  {
    if rows != [] {
      var r := Step(st, rows[0], strict);
      assert r.error.None?;
      RunInBounds(r.state, rows[1..], start + 1, strict);
    }
  }

  /** The first computation of a list never throws; its result is no longer
      than the input, and its entries are input items in input order. */
  lemma FirstRunOrdered(items: seq<Item>, sort: bool)
    ensures Run(PanelState([], items, map[]), Rows(items, sort), false).error.None?
    ensures var st := Run(PanelState([], items, map[]), Rows(items, sort), false).state;
      |st.acc| <= |items| && Increasing(st.acc, |items|)
  {
    RunInBounds(PanelState([], items, map[]), Rows(items, sort), 0, false);
    RunLength(PanelState([], items, map[]), Rows(items, sort), false);
  }

  /** The key each output entry was registered with. */
  function EntryKeys(st: PanelState, rows: seq<Row>): seq<string>
    requires forall k :: 0 <= k < |st.acc| ==> st.acc[k] < |rows|
  {
    seq(|st.acc|, k requires 0 <= k < |st.acc| => rows[st.acc[k]].key)
  }

  /** Keys of the model state agree with the map: every entry's key is
      mapped and the map points back to it. */
  ghost predicate KeysAgree(st: PanelState, rows: seq<Row>) {
    && (forall k :: 0 <= k < |st.acc| ==> st.acc[k] < |rows|)
    && (forall k :: 0 <= k < |st.acc| ==> rows[st.acc[k]].key in st.itemsMap && st.itemsMap[rows[st.acc[k]].key] == k)
    && (forall key :: key in st.itemsMap ==> st.itemsMap[key] < |st.acc| && rows[st.acc[st.itemsMap[key]]].key == key)
  }

  /** The state invariant of the corrected reduce after `done` rows. */
  ghost predicate FixedInv(st: PanelState, all: seq<Row>, done: nat) {
    && Wf(st) && done <= |all| && RowsFrom(all, 0, |st.cloned|)
    && KeysAgree(st, all) && Increasing(st.acc, done)
    && forall i :: 0 <= i < done ==> all[i].key in st.itemsMap
  }

  /** A row whose key is known leaves the positions and the map as they are. */
  lemma FixedMergeKeys(st: PanelState, all: seq<Row>, done: nat)
    requires FixedInv(st, all, done) && done < |all| && Merges(st, all[done], true)
    ensures Step(st, all[done], true).error.None?
    ensures FixedInv(Step(st, all[done], true).state, all, done + 1)
  {
    var row := all[done];
    assert st.itemsMap[row.key] < |st.acc|;
    var st' := Step(st, row, true).state;
    assert st'.acc == st.acc && st'.itemsMap == st.itemsMap && |st'.cloned| == |st.cloned|;
    assert KeysAgree(st', all);
  }

  /** Appending a position whose key is new keeps keys and map in agreement. */
  lemma KeysAgreePush(st: PanelState, all: seq<Row>, done: nat)
    requires KeysAgree(st, all) && done < |all| && all[done].key !in st.itemsMap
    ensures KeysAgree(PanelState(st.acc + [done], st.cloned, st.itemsMap[all[done].key := |st.acc|]), all)
  {
    var key := all[done].key;
    var n := |st.acc|;
    var acc' := st.acc + [done];
    var m' := st.itemsMap[key := n];
    forall k | 0 <= k < n
      ensures all[acc'[k]].key in m' && m'[all[acc'[k]].key] == k
    {
      assert acc'[k] == st.acc[k];
      assert all[st.acc[k]].key in st.itemsMap;
    }
    assert acc'[n] == done;
  }

  /** Appending the current position keeps the positions increasing. */
  lemma IncreasingPush(acc: seq<nat>, done: nat)
    requires Increasing(acc, done)
    ensures Increasing(acc + [done], done + 1)
  {
  }

  /** A row with a new key is appended, and the map points at it. */
  lemma FixedPushKeys(st: PanelState, all: seq<Row>, done: nat)
    requires FixedInv(st, all, done) && done < |all| && !Merges(st, all[done], true)
    ensures Step(st, all[done], true).error.None?
    ensures FixedInv(Step(st, all[done], true).state, all, done + 1)
  {
    var st' := PanelState(st.acc + [done], st.cloned, st.itemsMap[all[done].key := |st.acc|]);
    assert Step(st, all[done], true).state == st';
    KeysAgreePush(st, all, done);
    IncreasingPush(st.acc, done);
  }

  lemma FixedStepKeys(st: PanelState, all: seq<Row>, done: nat)
    requires FixedInv(st, all, done) && done < |all|
    ensures Step(st, all[done], true).error.None?
    ensures FixedInv(Step(st, all[done], true).state, all, done + 1)
  {
    if Merges(st, all[done], true) {
      FixedMergeKeys(st, all, done);
    } else {
      FixedPushKeys(st, all, done);
    }
  }

  lemma {:induction false} FixedRunKeys(st: PanelState, all: seq<Row>, done: nat)
    requires FixedInv(st, all, done)
    ensures var r := Run(st, all[done..], true);
      r.error.None? && FixedInv(r.state, all, |all|)
    decreases |all| - done
  {
    if done < |all| {
      var rows := all[done..];
      assert rows[0] == all[done] && rows[1..] == all[done + 1..];
      FixedStepKeys(st, all, done);
      RunAfterStep(st, rows, true);
      FixedRunKeys(Step(st, all[done], true).state, all, done + 1);
    }
  }

  /** The corrected consolidation registers every input key exactly once:
      the keys of its entries are pairwise distinct and cover the input. */
  lemma FixedKeysDistinct(items: seq<Item>, sort: bool)
    ensures var rows := Rows(items, sort);
      var st := Run(PanelState([], items, map[]), rows, true).state;
      (forall k :: 0 <= k < |st.acc| ==> st.acc[k] < |rows|)
      && (forall j, k :: 0 <= j < k < |st.acc| ==> rows[st.acc[j]].key != rows[st.acc[k]].key)
      && (forall i :: 0 <= i < |rows| ==> exists k :: 0 <= k < |st.acc| && rows[st.acc[k]].key == rows[i].key)
  {
    var rows := Rows(items, sort);
    var st0 := PanelState([], items, map[]);
    assert rows[0..] == rows;
    assert FixedInv(st0, rows, 0);
    FixedRunKeys(st0, rows, 0);
    var st := Run(st0, rows, true).state;
    forall i | 0 <= i < |rows|
      ensures exists k :: 0 <= k < |st.acc| && rows[st.acc[k]].key == rows[i].key
    {
      var k := st.itemsMap[rows[i].key];
      assert rows[st.acc[k]].key == rows[i].key;
    }
  }

  /** The corrected reduce starts from a fresh map on every computation, so
      it never throws. */
  lemma FixedNeverThrows(items: seq<Item>, sort: bool)
    ensures Run(PanelState([], items, map[]), Rows(items, sort), true).error.None?
  {
    RunInBounds(PanelState([], items, map[]), Rows(items, sort), 0, true);
  }

  /** The summed count of the rows before `n` whose key is `key`. */
  function KeyQty(rows: seq<Row>, n: nat, key: string): nat
    requires n <= |rows|
  {
    if n == 0 then 0
    else KeyQty(rows, n - 1, key) + (if rows[n - 1].key == key then rows[n - 1].qty else 0)
  }

  lemma {:induction false} KeyQtyAbsent(rows: seq<Row>, n: nat, key: string)
    requires n <= |rows| && forall i :: 0 <= i < n ==> rows[i].key != key
    ensures KeyQty(rows, n, key) == 0
  {
    if n > 0 { KeyQtyAbsent(rows, n - 1, key); }
  }

  lemma {:induction false} KeyQtyAtLeast(rows: seq<Row>, n: nat, key: string, i: nat)
    requires i < n <= |rows| && rows[i].key == key
    ensures KeyQty(rows, n, key) >= rows[i].qty
  {
    if i < n - 1 { KeyQtyAtLeast(rows, n - 1, key, i); }
  }

  ghost predicate AllCounted(rows: seq<Row>) {
    forall i :: 0 <= i < |rows| ==> rows[i].qty >= 1
  }

  /** The counts of the corrected reduce after `done` rows: each entry's name
      reads back the summed count of its key so far, and the items not yet
      reached still carry their own counts. */
  ghost predicate QtyInv(st: PanelState, all: seq<Row>, done: nat) {
    && done <= |all| == |st.cloned| && Wf(st)
    && (forall k :: 0 <= k < |st.acc| ==>
         ItemQty(st.cloned[st.acc[k]].name) == KeyQty(all, done, all[st.acc[k]].key))
    && (forall i :: done <= i < |all| ==> ItemQty(st.cloned[i].name) == all[i].qty)
  }

  /** A row with a new key starts its entry with the row's own count. */
  lemma QtyPush(st: PanelState, all: seq<Row>, done: nat)
    requires FixedInv(st, all, done) && QtyInv(st, all, done) && done < |all|
    requires !Merges(st, all[done], true)
    ensures QtyInv(Step(st, all[done], true).state, all, done + 1)
  {
    var row := all[done];
    var st' := PanelState(st.acc + [done], st.cloned, st.itemsMap[row.key := |st.acc|]);
    assert Step(st, row, true).state == st';
    forall i | 0 <= i < done ensures all[i].key != row.key {
      assert all[i].key in st.itemsMap;
    }
    KeyQtyAbsent(all, done, row.key);
    forall k | 0 <= k < |st'.acc|
      ensures ItemQty(st'.cloned[st'.acc[k]].name) == KeyQty(all, done + 1, all[st'.acc[k]].key)
    {
      if k < |st.acc| {
        assert st'.acc[k] == st.acc[k];
        assert all[st.acc[k]].key in st.itemsMap;
      } else {
        assert st'.acc[k] == done;
      }
    }
  }

  /** A row with a known key adds its count to that key's entry and to no other. */
  lemma QtyMerge(st: PanelState, all: seq<Row>, done: nat)
    requires FixedInv(st, all, done) && QtyInv(st, all, done) && done < |all| && AllCounted(all)
    requires Merges(st, all[done], true)
    ensures QtyInv(Step(st, all[done], true).state, all, done + 1)
  {
    var row := all[done];
    var e := st.itemsMap[row.key];
    var t := st.acc[e];
    assert all[t].key == row.key && t < done;
    KeyQtyAtLeast(all, done, row.key, t);
    var st' := Step(st, row, true).state;
    assert ItemQty(st'.cloned[t].name) == ItemQty(st.cloned[t].name) + row.qty;
    forall k | 0 <= k < |st'.acc|
      ensures ItemQty(st'.cloned[st'.acc[k]].name) == KeyQty(all, done + 1, all[st'.acc[k]].key)
    {
      if k != e {
        assert st.acc[k] != t;
        assert st.itemsMap[all[st.acc[k]].key] == k;
      }
    }
  }

  lemma QtyStep(st: PanelState, all: seq<Row>, done: nat)
    requires FixedInv(st, all, done) && QtyInv(st, all, done) && done < |all| && AllCounted(all)
    ensures QtyInv(Step(st, all[done], true).state, all, done + 1)
  {
    if Merges(st, all[done], true) {
      QtyMerge(st, all, done);
    } else {
      QtyPush(st, all, done);
    }
  }

  lemma {:induction false} QtyRun(st: PanelState, all: seq<Row>, done: nat)
    requires FixedInv(st, all, done) && QtyInv(st, all, done) && AllCounted(all)
    ensures QtyInv(Run(st, all[done..], true).state, all, |all|)
    decreases |all| - done
  {
    if done < |all| {
      var rows := all[done..];
      assert rows[0] == all[done] && rows[1..] == all[done + 1..];
      FixedStepKeys(st, all, done);
      QtyStep(st, all, done);
      RunAfterStep(st, rows, true);
      QtyRun(Step(st, all[done], true).state, all, done + 1);
    }
  }

  /** When every grant counts at least one, each entry of the corrected
      consolidation reads back the sum of the counts of all grants with its
      key. */
  lemma FixedQtySummed(items: seq<Item>, sort: bool)
    requires forall i :: 0 <= i < |items| ==> ItemQty(items[i].name) >= 1
    ensures var rows := Rows(items, sort);
      var st := Run(PanelState([], items, map[]), rows, true).state;
      forall k :: 0 <= k < |st.acc| ==>
        st.acc[k] < |rows| && ItemQty(st.cloned[st.acc[k]].name) == KeyQty(rows, |rows|, rows[st.acc[k]].key)
  {
    var rows := Rows(items, sort);
    var st0 := PanelState([], items, map[]);
    forall i | 0 <= i < |items| ensures rows[i].qty == ItemQty(items[i].name) {
      RowsAt(items, sort, i);
    }
    assert rows[0..] == rows;
    assert FixedInv(st0, rows, 0);
    assert QtyInv(st0, rows, 0);
    FixedRunKeys(st0, rows, 0);
    QtyRun(st0, rows, 0);
  }

  /** A merge at row `i` of the loop leaves the rest of the reduce to the remaining rows. */
  lemma RunAfterMerge(before: PanelState, rows: seq<Row>, i: nat, renamed: Item)
    requires Wf(before) && i < |rows| && forall j :: 0 <= j < |rows| ==> rows[j].index < |before.cloned|
    requires Merges(before, rows[i], false) && before.itemsMap[rows[i].key] < |before.acc|
    requires var t := before.acc[before.itemsMap[rows[i].key]];
      renamed == before.cloned[t].(name := MergedName(rows[i], ItemQty(before.cloned[t].name)))
    ensures var t := before.acc[before.itemsMap[rows[i].key]];
      Run(PanelState(before.acc, before.cloned[t := renamed], before.itemsMap), rows[i + 1..], false)
      == Run(before, rows[i..], false)
  {
    assert rows[i..][0] == rows[i] && rows[i..][1..] == rows[i + 1..];
    StepMerge(before, rows[i], renamed);
    RunAfterStep(before, rows[i..], false);
  }

  /** A stale entry at row `i` of the loop ends the reduce with the error. */
  lemma RunAtStale(before: PanelState, rows: seq<Row>, i: nat)
    requires Wf(before) && i < |rows| && forall j :: 0 <= j < |rows| ==> rows[j].index < |before.cloned|
    requires Merges(before, rows[i], false) && before.itemsMap[rows[i].key] >= |before.acc|
    ensures Run(before, rows[i..], false) == RunResult(before, Some(UndefinedNameError))
  {
    assert rows[i..][0] == rows[i];
  }

  /** A push at row `i` of the loop leaves the rest of the reduce to the remaining rows. */
  lemma RunAfterPush(before: PanelState, rows: seq<Row>, i: nat)
    requires Wf(before) && i < |rows| && forall j :: 0 <= j < |rows| ==> rows[j].index < |before.cloned|
    requires !Merges(before, rows[i], false)
    ensures Run(PanelState(before.acc + [rows[i].index], before.cloned, before.itemsMap[rows[i].key := |before.acc|]), rows[i + 1..], false)
      == Run(before, rows[i..], false)
  {
    assert rows[i..][0] == rows[i] && rows[i..][1..] == rows[i + 1..];
    StepPush(before, rows[i]);
    RunAfterStep(before, rows[i..], false);
  }

  // ---------------------------------------------------------------------
  // The component: `itemsMap` and the cloned items live as long as the
  // component instance, across recomputations.

  class ItemsPanel {
    /** `useMemo(() => new Map(), [])`: created once, never cleared. */
    var itemsMap: map<string, nat>
    /** `structuredClone(items)`: the objects the reduce renames in place. */
    var cloned: seq<Item>

    constructor (items: seq<Item>)
      ensures itemsMap == map[] && cloned == items
    {
      itemsMap := map[];
      cloned := items;
    }

    /** A new `items` prop: the clone is recomputed, the map is kept. */
    method SetItems(items: seq<Item>)
      modifies this
      ensures cloned == items && itemsMap == old(itemsMap)
    {
      cloned := items;
    }

    /** `consolidatedItems`: the map phase, then the reduce with its pushes,
        in-place renames and `itemsMap.set`s. */
    method Consolidate(sort: bool) returns (r: Result<seq<Item>>)
      modifies this
      ensures var out := Run(PanelState([], old(cloned), old(itemsMap)), Rows(old(cloned), sort), false);
        && cloned == out.state.cloned && itemsMap == out.state.itemsMap
        && (out.error.None? ==> r == Ok(Entries(out.state)))
        && (out.error.Some? ==> r == Err(out.error.value))
    {
      r := Reduce(Rows(cloned, sort));
    }

    /** The reduce of items.tsx:68-89 over the rows of the map phase. */
    method Reduce(rows: seq<Row>) returns (r: Result<seq<Item>>)
      requires forall i :: 0 <= i < |rows| ==> rows[i].index < |cloned|
      modifies this
      ensures var out := Run(PanelState([], old(cloned), old(itemsMap)), rows, false);
        && cloned == out.state.cloned && itemsMap == out.state.itemsMap
        && (out.error.None? ==> r == Ok(Entries(out.state)))
        && (out.error.Some? ==> r == Err(out.error.value))
    {
      var c: seq<Item> := cloned;
      var m: map<string, nat> := itemsMap;
      ghost var st0 := PanelState([], c, m);
      var acc: seq<nat> := [];
      var i := 0;
      while i < |rows|
        invariant 0 <= i <= |rows| && |c| == |old(cloned)|
        invariant Wf(PanelState(acc, c, m))
        invariant Run(PanelState(acc, c, m), rows[i..], false) == Run(st0, rows, false)
      {
        var row := rows[i];
        ghost var before := PanelState(acc, c, m);
        if row.key in m && m[row.key] != 0 {
          var e := m[row.key];
          if e >= |acc| {
            RunAtStale(before, rows, i);
            cloned, itemsMap := c, m;
            r := Err(UndefinedNameError);
            return;
          }
          var t := acc[e];
          var renamed := c[t].(name := MergedName(row, ItemQty(c[t].name)));
          RunAfterMerge(before, rows, i, renamed);
          c := c[t := renamed];
        } else {
          RunAfterPush(before, rows, i);
          acc := acc + [row.index];
          m := m[row.key := |acc| - 1];
        }
        i := i + 1;
      }
      assert rows[i..] == [];
      cloned, itemsMap := c, m;
      r := Ok(Entries(PanelState(acc, c, m)));
    }
  }

  // ---------------------------------------------------------------------
  // The behaviour of the source as written, against the corrected reduce

  /** As written, a second row with the key of the row at position 0 is
      appended again. */
  lemma {:induction false} RunRepeatAsWritten(items: seq<Item>, r0: Row, r1: Row)
    requires |items| == 2 && r0.index == 0 && r1.index == 1 && r0.key == r1.key
    ensures Run(PanelState([], items, map[]), [r0, r1], false)
      == RunResult(PanelState([0, 1], items, map[r0.key := 1]), None)
  {
    var rows := [r0, r1];
    var st0 := PanelState([], items, map[]);
    StepPush(st0, r0);
    var st1 := PanelState([0], items, map[r0.key := 0]);
    RunAfterStep(st0, rows, false);
    assert rows[1..] == [r1];
    StepPush(st1, r1);
    RunAfterStep(st1, [r1], false);
    assert [r1][1..] == [];
  }

  /** With the corrected test the second row is merged into the first. */
  lemma {:induction false} RunRepeatFixed(items: seq<Item>, r0: Row, r1: Row)
    requires |items| == 2 && r0.index == 0 && r1.index == 1 && r0.key == r1.key
    ensures |Run(PanelState([], items, map[]), [r0, r1], true).state.acc| == 1
  {
    var rows := [r0, r1];
    var st0 := PanelState([], items, map[]);
    var st1 := PanelState([0], items, map[r0.key := 0]);
    assert Step(st0, r0, true) == RunResult(st1, None);
    RunAfterStep(st0, rows, true);
    assert rows[1..] == [r1];
    assert Merges(st1, r1, true);
    var st2 := Step(st1, r1, true);
    assert st2.error.None? && st2.state.acc == [0];
    RunAfterStep(st1, [r1], true);
    assert [r1][1..] == [];
  }

  /** A repeat of the item at position 0 is appended instead of merged: two
      identical grants give two entries, where the corrected reduce gives one. */
  lemma DuplicateOfFirstNotMerged(x: Item, sort: bool)
    ensures var out := Run(PanelState([], [x, x], map[]), Rows([x, x], sort), false);
      out.error.None? && |Entries(out.state)| == 2
    ensures |ConsolidateFixed([x, x], sort)| == 1
  {
    RowsOfTwo(x, x, sort);
    RunRepeatAsWritten([x, x], RowOf(x, 0, sort), RowOf(x, 1, sort));
    RunRepeatFixed([x, x], RowOf(x, 0, sort), RowOf(x, 1, sort));
  }

  /** Two rows with distinct keys both get pushed by the first computation. */
  lemma {:induction false} RunTwoDistinct(items: seq<Item>, r0: Row, r1: Row)
    requires |items| == 2 && r0.index == 0 && r1.index == 1 && r0.key != r1.key
    ensures Run(PanelState([], items, map[]), [r0, r1], false)
      == RunResult(PanelState([0, 1], items, map[r0.key := 0, r1.key := 1]), None)
  {
    var rows := [r0, r1];
    var st0 := PanelState([], items, map[]);
    StepPush(st0, r0);
    var st1 := PanelState([0], items, map[r0.key := 0]);
    RunAfterStep(st0, rows, false);
    StepPush(st1, r1);
    var st2 := PanelState([0, 1], items, map[r0.key := 0, r1.key := 1]);
    RunAfterStep(st1, rows[1..], false);
    assert rows[1..][1..] == [];
  }

  lemma RowsOfTwo(x: Item, y: Item, sort: bool)
    ensures Rows([x, y], sort) == [RowOf(x, 0, sort), RowOf(y, 1, sort)]
  {
    RowsAt([x, y], sort, 0);
    RowsAt([x, y], sort, 1);
  }

  /** The first computation of two items with distinct keys keeps both and
      leaves the map pointing at positions 0 and 1. */
  lemma FirstComputationOfTwo(x: Item, y: Item, sort: bool)
    requires ItemKey(x) != ItemKey(y)
    ensures Run(PanelState([], [x, y], map[]), Rows([x, y], sort), false)
      == RunResult(PanelState([0, 1], [x, y], map[ItemKey(x) := 0, ItemKey(y) := 1]), None)
  {
    RowsOfTwo(x, y, sort);
    RunTwoDistinct([x, y], RowOf(x, 0, sort), RowOf(y, 1, sort));
  }

  /** Because `itemsMap` survives a recomputation, computing the same two
      items with distinct keys a second time throws: the stale entry of the
      second item points at a position the new `acc` does not have yet. */
  lemma SecondComputationThrows(x: Item, y: Item, sort: bool)
    requires ItemKey(x) != ItemKey(y)
    ensures var first := Run(PanelState([], [x, y], map[]), Rows([x, y], sort), false);
      && first.error.None?
      && Run(PanelState([], first.state.cloned, first.state.itemsMap), Rows(first.state.cloned, sort), false).error
         == Some(UndefinedNameError)
  {
    FirstComputationOfTwo(x, y, sort);
    RowsOfTwo(x, y, sort);
    RunStaleTwo([x, y], RowOf(x, 0, sort), RowOf(y, 1, sort));
  }

  /** Two rows with distinct keys, run against the map their first run left:
      the first is pushed again, the second finds the stale position 1. */
  lemma {:induction false} RunStaleTwo(items: seq<Item>, r0: Row, r1: Row)
    requires |items| == 2 && r0.index == 0 && r1.index == 1 && r0.key != r1.key
    ensures Run(PanelState([], items, map[r0.key := 0, r1.key := 1]), [r0, r1], false).error
      == Some(UndefinedNameError)
  {
    var rows := [r0, r1];
    var m := map[r0.key := 0, r1.key := 1];
    var t0 := PanelState([], items, m);
    StepPush(t0, r0);
    assert m[r0.key := 0] == m;
    var t1 := PanelState([0], items, m);
    RunAfterStep(t0, rows, false);
    assert rows[1..] == [r1];
    assert Step(t1, r1, false).error == Some(UndefinedNameError);
  }

  const Cloak := Item("1", "Cloak", None)
  const Ring := Item("2", "Ring", None)

  /** Two different items meet the condition of `SecondComputationThrows`. */
  lemma CloakRingKeysDiffer()
    ensures ItemKey(Cloak) != ItemKey(Ring)
  {
    assert LeadingDigits("Cloak") == 0 && LeadingDigits("Ring") == 0;
    assert ItemKey(Cloak)[0] == 'C' && ItemKey(Ring)[0] == 'R';
  }
}
