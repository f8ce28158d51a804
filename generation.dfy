/** The generator's string pipeline (`localizedstringkit/__init__.py`): grouping the
    detected strings per bundle into a normal table and a plural table, merging plural
    entries into an existing stringsdict, the staleness checks, and the names of the files
    written for each bundle. */
module Generation {
  import opened Common
  import opened Text
  import opened Sorting
  import opened Detection

  // ---------------------------------------------------------------------------------------
  // Plural tokens: `re.findall(r"%#@(.*?)@", value)` (__init__.py:42, 48)

  /** Where the lazy group ends: the first `@`, unless a line break comes before it. */
  function TokenClose(v: string): (r: Option<nat>)
    ensures r.Some? ==> r.value < |v| && v[r.value] == '@' && '@' !in v[..r.value] && '\n' !in v[..r.value]
  {
    if v == [] || v[0] == '\n' then None
    else if v[0] == '@' then Some(0)
    else
      match TokenClose(v[1..])
      case None => None
      case Some(j) =>
        assert v[..j + 1] == [v[0]] + v[1..][..j];
        Some(j + 1)
  }

  /** The names of the `%#@name@` tokens of a value, left to right, without overlap. */
  function Tokens(v: string): (r: seq<string>)
    ensures forall t :: t in r ==> '@' !in t && '\n' !in t
    decreases |v|
  {
    if |v| < 3 then []
    else if v[..3] == "%#@" then
      match TokenClose(v[3..])
      case Some(j) =>
        assert v[3..3 + j] == v[3..][..j];
        [v[3..3 + j]] + Tokens(v[4 + j..])
      case None => Tokens(v[1..])
    else Tokens(v[1..])
  }

  lemma {:induction false} TokenCloseAt(name: string, rest: string)
    requires '@' !in name && '\n' !in name
    ensures TokenClose(name + "@" + rest) == Some(|name|)
  {
    if name != [] {
      assert (name + "@" + rest)[1..] == name[1..] + "@" + rest;
      TokenCloseAt(name[1..], rest);
    }
  }

  /** A token in front of the text is found, and the scan carries on after it. */
  lemma TokensCons(name: string, rest: string)
    requires '@' !in name && '\n' !in name
    ensures Tokens("%#@" + name + "@" + rest) == [name] + Tokens(rest)
  {
    var v := "%#@" + name + "@" + rest;
    assert v[..3] == "%#@";
    assert v[3..] == name + "@" + rest;
    TokenCloseAt(name, rest);
    assert v[3..3 + |name|] == name;
    assert v[4 + |name|..] == rest;
  }

  /** A value without `%#@` has no tokens. */
  lemma {:induction false} TokensAbsent(v: string)
    requires !Contains(v, "%#@")
    ensures Tokens(v) == []
    decreases |v|
  {
    if |v| >= 3 {
      assert !OccursAt(v, "%#@", 0);
      forall i: nat | i <= |v[1..]| ensures !OccursAt(v[1..], "%#@", i) {
        assert !OccursAt(v, "%#@", i + 1);
        assert i + 3 <= |v| - 1 ==> v[1..][i..i + 3] == v[i + 1..i + 4];
      }
      TokensAbsent(v[1..]);
    }
  }

  /** Every token was written `%#@name@` in the value. */
  lemma {:induction false} TokensOccur(v: string, t: string)
    requires t in Tokens(v)
    ensures Contains(v, "%#@" + t + "@")
    decreases |v|
  {
    var tail := 1;
    if v[..3] == "%#@" && TokenClose(v[3..]).Some? {
      var j := TokenClose(v[3..]).value;
      if t == v[3..3 + j] {
        FirstTokenOccurs(v, j);
        return;
      }
      tail := 4 + j;
    }
    assert t in Tokens(v[tail..]);
    TokensOccur(v[tail..], t);
    ContainsShift(v, tail, "%#@" + t + "@");
  }

  /** The token the scan finds first is written at the start of the value. */
  lemma FirstTokenOccurs(v: string, j: nat)
    requires |v| >= 3 && v[..3] == "%#@" && TokenClose(v[3..]) == Some(j)
    ensures OccursAt(v, "%#@" + v[3..3 + j] + "@", 0)
  {
    assert v[..4 + j] == v[..3] + v[3..3 + j] + [v[3 + j]];
  }

  /** What occurs in a suffix occurs in the whole. */
  lemma ContainsShift(v: string, tail: nat, pat: string)
    requires tail <= |v| && Contains(v[tail..], pat)
    ensures Contains(v, pat)
  {
    var i: nat :| i <= |v[tail..]| && OccursAt(v[tail..], pat, i);
    assert v[tail..][i..i + |pat|] == v[tail + i..tail + i + |pat|];
    assert OccursAt(v, pat, tail + i);
  }

  // ---------------------------------------------------------------------------------------
  // Plural entries (__init__.py:54-61)

  /** A `DotStringsDictEntry` as the generator builds it: the variables are the keys of the
      `variables` dict, in insertion order. */
  datatype PluralEntry = PluralEntry(key: string, value: string, variables: seq<string>)

  /** Whether a string goes to the plural table. */
  predicate IsPlural(generatePlurals: bool, s: LocalizedString) {
    generatePlurals && |Tokens(s.value)| > 0
  }

  /** The stringsdict entry of a string: its key and value, one variable per token name. */
  function EntryOf(hash: string -> string, s: LocalizedString): (e: PluralEntry)
    ensures e.key == Key(hash, s) && e.value == s.value
    ensures forall n :: n in e.variables <==> n in Tokens(s.value)
    ensures NoDuplicates(e.variables)
  {
    PluralEntry(Key(hash, s), s.value, Distinct(Tokens(s.value)))
  }

  function EntriesOf(hash: string -> string, ss: seq<LocalizedString>): (es: seq<PluralEntry>)
    ensures |es| == |ss| && forall i :: 0 <= i < |ss| ==> es[i] == EntryOf(hash, ss[i])
  {
    seq(|ss|, i requires 0 <= i < |ss| => EntryOf(hash, ss[i]))
  }

  // ---------------------------------------------------------------------------------------
  // The sort order `(key, key_extension, comment)` (__init__.py:40)

  /** A missing extension sorts first. */
  predicate ExtensionLt(a: Option<string>, b: Option<string>) {
    match a
    case None => b.Some?
    case Some(x) => b.Some? && LexLt(x, b.value)
  }

  predicate SortKeyLt(hash: string -> string, a: LocalizedString, b: LocalizedString) {
    var ka := Key(hash, a);
    var kb := Key(hash, b);
    || LexLt(ka, kb)
    || (ka == kb && ExtensionLt(a.keyExtension, b.keyExtension))
    || (ka == kb && a.keyExtension == b.keyExtension && LexLt(a.comment, b.comment))
  }

  function StringOrder(hash: string -> string): (LocalizedString, LocalizedString) -> bool {
    (a, b) => SortKeyLt(hash, a, b)
  }

  lemma ExtensionLtIrreflexive(a: Option<string>)
    ensures !ExtensionLt(a, a)
  {
    if a.Some? {
      LexLtIrreflexive(a.value);
    }
  }

  lemma ExtensionLtTransitive(a: Option<string>, b: Option<string>, c: Option<string>)
    requires ExtensionLt(a, b) && ExtensionLt(b, c)
    ensures ExtensionLt(a, c)
  {
    if a.Some? {
      LexLtTransitive(a.value, b.value, c.value);
    }
  }

  lemma ExtensionLtTotal(a: Option<string>, b: Option<string>)
    ensures ExtensionLt(a, b) || a == b || ExtensionLt(b, a)
  {
    if a.Some? && b.Some? {
      LexLtTotal(a.value, b.value);
    }
  }

  /** Two strings with the same sort key. */
  predicate SameSortKey(hash: string -> string, a: LocalizedString, b: LocalizedString) {
    Key(hash, a) == Key(hash, b) && a.keyExtension == b.keyExtension && a.comment == b.comment
  }

  lemma SortKeyLtIrreflexive(hash: string -> string, a: LocalizedString)
    ensures !SortKeyLt(hash, a, a)
  {
    LexLtIrreflexive(Key(hash, a));
    ExtensionLtIrreflexive(a.keyExtension);
    LexLtIrreflexive(a.comment);
  }

  lemma SortKeyLtTransitive(hash: string -> string, a: LocalizedString, b: LocalizedString, c: LocalizedString)
    requires SortKeyLt(hash, a, b) && SortKeyLt(hash, b, c)
    ensures SortKeyLt(hash, a, c)
  {
    var ka, kb, kc := Key(hash, a), Key(hash, b), Key(hash, c);
    if LexLt(ka, kb) && LexLt(kb, kc) {
      LexLtTransitive(ka, kb, kc);
    } else if ka == kb && kb == kc {
      if ExtensionLt(a.keyExtension, b.keyExtension) && ExtensionLt(b.keyExtension, c.keyExtension) {
        ExtensionLtTransitive(a.keyExtension, b.keyExtension, c.keyExtension);
      } else if a.keyExtension == b.keyExtension && b.keyExtension == c.keyExtension {
        LexLtTransitive(a.comment, b.comment, c.comment);
      }
    }
  }

  /** Any two strings are ordered one way or the other, or have the same sort key. */
  lemma SortKeyLtTotal(hash: string -> string, a: LocalizedString, b: LocalizedString)
    ensures SortKeyLt(hash, a, b) || SameSortKey(hash, a, b) || SortKeyLt(hash, b, a)
  {
    LexLtTotal(Key(hash, a), Key(hash, b));
    ExtensionLtTotal(a.keyExtension, b.keyExtension);
    LexLtTotal(a.comment, b.comment);
  }

  lemma SortKeyLtSame(hash: string -> string, a: LocalizedString, b: LocalizedString, c: LocalizedString)
    requires SameSortKey(hash, a, b)
    ensures SortKeyLt(hash, a, c) == SortKeyLt(hash, b, c) && SortKeyLt(hash, c, a) == SortKeyLt(hash, c, b)
  {
  }

  /** The comparison the sort uses is a strict weak order, so the sort orders the strings. */
  lemma StringOrderStrictWeak(hash: string -> string)
    ensures StrictWeakOrder(StringOrder(hash))
  {
    var lt := StringOrder(hash);
    forall a ensures !lt(a, a) {
      SortKeyLtIrreflexive(hash, a);
    }
    forall a, b, c | lt(a, b) && lt(b, c) ensures lt(a, c) {
      SortKeyLtTransitive(hash, a, b, c);
    }
    forall a, b, c | !lt(a, b) && !lt(b, c) ensures !lt(a, c) {
      SortKeyLtTotal(hash, a, b);
      SortKeyLtTotal(hash, b, c);
      if SameSortKey(hash, a, b) {
        SortKeyLtSame(hash, a, b, c);
      } else if SameSortKey(hash, b, c) {
        SortKeyLtSame(hash, b, c, a);
      } else {
        SortKeyLtTransitive(hash, c, b, a);
        if lt(a, c) {
          SortKeyLtTransitive(hash, a, c, a);
          SortKeyLtIrreflexive(hash, a);
        }
      }
    }
  }

  /** `list(set(strings))` sorted by `(key, key_extension, comment)`. */
  function Ordered(hash: string -> string, detected: seq<LocalizedString>): seq<LocalizedString> {
    Sort(Distinct(detected), StringOrder(hash))
  }

  lemma OrderedProperties(hash: string -> string, detected: seq<LocalizedString>)
    ensures forall x :: x in Ordered(hash, detected) <==> x in detected
    ensures NoDuplicates(Ordered(hash, detected))
    ensures Sorted(Ordered(hash, detected), StringOrder(hash))
  {
    var d := Distinct(detected);
    var l := Ordered(hash, detected);
    assert multiset(l) == multiset(d);
    forall x ensures x in l <==> x in detected {
      assert x in l <==> x in multiset(l);
      assert x in d <==> x in multiset(d);
    }
    PermutationNoDuplicates(d, l);
    StringOrderStrictWeak(hash);
    SortSorted(d, StringOrder(hash));
  }

  // ---------------------------------------------------------------------------------------
  // Grouping per bundle (__init__.py:44-63)

  /** Whether a string belongs to the plural table (`plural`) or to the normal one. */
  predicate GoesTo(generatePlurals: bool, plural: bool, s: LocalizedString) {
    IsPlural(generatePlurals, s) == plural
  }

  /** The strings of `ordered` that one table holds for `bundle`, in order. */
  function Bucket(ordered: seq<LocalizedString>, generatePlurals: bool, plural: bool, bundle: string)
    : seq<LocalizedString>
  {
    if ordered == [] then []
    else
      var last := ordered[|ordered| - 1];
      var earlier := Bucket(ordered[..|ordered| - 1], generatePlurals, plural, bundle);
      if last.bundle == bundle && GoesTo(generatePlurals, plural, last) then earlier + [last] else earlier
  }

  /** A bundle's list holds exactly the strings of that bundle that go to the table. */
  lemma {:induction false} BucketMembers(ordered: seq<LocalizedString>, generatePlurals: bool, plural: bool, bundle: string)
    ensures forall x :: x in Bucket(ordered, generatePlurals, plural, bundle) <==>
      x in ordered && x.bundle == bundle && GoesTo(generatePlurals, plural, x)
  {
    if ordered != [] {
      var init := ordered[..|ordered| - 1];
      assert ordered == init + [ordered[|ordered| - 1]];
      BucketMembers(init, generatePlurals, plural, bundle);
    }
  }

  /** The bundles of one table in order of first appearance (the `defaultdict`'s keys). */
  function Bundles(ordered: seq<LocalizedString>, generatePlurals: bool, plural: bool): seq<string> {
    if ordered == [] then []
    else
      var last := ordered[|ordered| - 1];
      var earlier := Bundles(ordered[..|ordered| - 1], generatePlurals, plural);
      if GoesTo(generatePlurals, plural, last) && last.bundle !in earlier then earlier + [last.bundle] else earlier
  }

  /** A table's keys are exactly the bundles of the strings that go to it. */
  lemma {:induction false} BundlesMembers(ordered: seq<LocalizedString>, generatePlurals: bool, plural: bool, b: string)
    ensures b in Bundles(ordered, generatePlurals, plural) <==>
      exists x :: x in ordered && x.bundle == b && GoesTo(generatePlurals, plural, x)
  {
    if ordered != [] {
      var init := ordered[..|ordered| - 1];
      var last := ordered[|ordered| - 1];
      assert ordered == init + [last];
      BundlesMembers(init, generatePlurals, plural, b);
      if b in Bundles(ordered, generatePlurals, plural) && b !in Bundles(init, generatePlurals, plural) {
        assert last in ordered && last.bundle == b;
      }
    }
  }

  /** One table as a dict from bundle name to its strings. */
  function Table(ordered: seq<LocalizedString>, generatePlurals: bool, plural: bool): Dict<seq<LocalizedString>> {
    var bundles := Bundles(ordered, generatePlurals, plural);
    Dict(bundles, map b | b in bundles :: Bucket(ordered, generatePlurals, plural, b))
  }

  /** A table of strings as a table of stringsdict entries. */
  function EntryTable(hash: string -> string, t: Dict<seq<LocalizedString>>): Dict<seq<PluralEntry>> {
    Dict(t.keys, map b | b in t.items :: EntriesOf(hash, t.items[b]))
  }

  /** The two tables `get_strings` returns. */
  datatype Tables = Tables(normal: Dict<seq<LocalizedString>>, plural: Dict<seq<PluralEntry>>)

  function Grouped(hash: string -> string, detected: seq<LocalizedString>, generatePlurals: bool): Tables {
    var ordered := Ordered(hash, detected);
    Tables(Table(ordered, generatePlurals, false), EntryTable(hash, Table(ordered, generatePlurals, true)))
  }

  lemma {:induction false} BundlesNoDuplicates(ordered: seq<LocalizedString>, generatePlurals: bool, plural: bool)
    ensures NoDuplicates(Bundles(ordered, generatePlurals, plural))
  {
    if ordered != [] {
      BundlesNoDuplicates(ordered[..|ordered| - 1], generatePlurals, plural);
    }
  }

  lemma TableValid(ordered: seq<LocalizedString>, generatePlurals: bool, plural: bool)
    ensures Table(ordered, generatePlurals, plural).Valid()
  {
    BundlesNoDuplicates(ordered, generatePlurals, plural);
  }

  lemma BucketStep(ordered: seq<LocalizedString>, generatePlurals: bool, plural: bool, x: LocalizedString, bundle: string)
    ensures Bucket(ordered + [x], generatePlurals, plural, bundle) ==
      if x.bundle == bundle && GoesTo(generatePlurals, plural, x) then Bucket(ordered, generatePlurals, plural, bundle) + [x]
      else Bucket(ordered, generatePlurals, plural, bundle)
  {
    var longer := ordered + [x];
    assert longer[..|longer| - 1] == ordered;
  }

  lemma BundlesStep(ordered: seq<LocalizedString>, generatePlurals: bool, plural: bool, x: LocalizedString)
    ensures Bundles(ordered + [x], generatePlurals, plural) ==
      var earlier := Bundles(ordered, generatePlurals, plural);
      if GoesTo(generatePlurals, plural, x) && x.bundle !in earlier then earlier + [x.bundle] else earlier
  {
    var longer := ordered + [x];
    assert longer[..|longer| - 1] == ordered;
  }

  /** A bundle that is not among a table's keys has no strings in it. */
  lemma BucketEmpty(ordered: seq<LocalizedString>, generatePlurals: bool, plural: bool, bundle: string)
    requires bundle !in Bundles(ordered, generatePlurals, plural)
    ensures Bucket(ordered, generatePlurals, plural, bundle) == []
  {
    BucketMembers(ordered, generatePlurals, plural, bundle);
    BundlesMembers(ordered, generatePlurals, plural, bundle);
    HeadIsMember(Bucket(ordered, generatePlurals, plural, bundle));
  }

  lemma TableGrows(ordered: seq<LocalizedString>, generatePlurals: bool, plural: bool, x: LocalizedString)
    requires GoesTo(generatePlurals, plural, x)
    ensures Table(ordered, generatePlurals, plural).Valid()
    ensures Table(ordered + [x], generatePlurals, plural) == AppendTo(Table(ordered, generatePlurals, plural), x.bundle, x)
  {
    TableValid(ordered, generatePlurals, plural);
    TableAppended(ordered, generatePlurals, plural, x);
  }

  /** The table after one more string of its side, spelled out without the dict invariant. */
  lemma TableAppended(ordered: seq<LocalizedString>, generatePlurals: bool, plural: bool, x: LocalizedString)
    requires GoesTo(generatePlurals, plural, x)
    ensures var t := Table(ordered, generatePlurals, plural);
      Table(ordered + [x], generatePlurals, plural) ==
        if x.bundle in t.items then Dict(t.keys, t.items[x.bundle := t.items[x.bundle] + [x]])
        else Dict(t.keys + [x.bundle], t.items[x.bundle := [x]])
  {
    if x.bundle in Bundles(ordered, generatePlurals, plural) {
      TableAppendedKnown(ordered, generatePlurals, plural, x);
    } else {
      TableAppendedNew(ordered, generatePlurals, plural, x);
    }
  }

  /** A string of a bundle the table already holds goes to the end of that bundle's list. */
  lemma TableAppendedKnown(ordered: seq<LocalizedString>, generatePlurals: bool, plural: bool, x: LocalizedString)
    requires GoesTo(generatePlurals, plural, x)
    requires x.bundle in Bundles(ordered, generatePlurals, plural)
    ensures var t := Table(ordered, generatePlurals, plural);
      Table(ordered + [x], generatePlurals, plural) == Dict(t.keys, t.items[x.bundle := t.items[x.bundle] + [x]])
  {
    var t := Table(ordered, generatePlurals, plural);
    var u := Table(ordered + [x], generatePlurals, plural);
    var items := t.items[x.bundle := t.items[x.bundle] + [x]];
    assert u.keys == t.keys by {
      BundlesStep(ordered, generatePlurals, plural, x);
    }
    forall b | b in u.items ensures u.items[b] == items[b] {
      BucketStep(ordered, generatePlurals, plural, x, b);
    }
    assert u.items == items;
  }

  /** A string of a new bundle adds the bundle at the end, with a list of its own. */
  lemma TableAppendedNew(ordered: seq<LocalizedString>, generatePlurals: bool, plural: bool, x: LocalizedString)
    requires GoesTo(generatePlurals, plural, x)
    requires x.bundle !in Bundles(ordered, generatePlurals, plural)
    ensures var t := Table(ordered, generatePlurals, plural);
      Table(ordered + [x], generatePlurals, plural) == Dict(t.keys + [x.bundle], t.items[x.bundle := [x]])
  {
    var t := Table(ordered, generatePlurals, plural);
    var u := Table(ordered + [x], generatePlurals, plural);
    var items := t.items[x.bundle := [x]];
    assert u.keys == t.keys + [x.bundle] by {
      BundlesStep(ordered, generatePlurals, plural, x);
    }
    forall b | b in u.items ensures u.items[b] == items[b] {
      BucketStep(ordered, generatePlurals, plural, x, b);
      if b == x.bundle {
        BucketEmpty(ordered, generatePlurals, plural, b);
        assert [] + [x] == [x];
      }
    }
    assert u.items == items;
  }

  lemma TableKept(ordered: seq<LocalizedString>, generatePlurals: bool, plural: bool, x: LocalizedString)
    requires !GoesTo(generatePlurals, plural, x)
    ensures Table(ordered + [x], generatePlurals, plural) == Table(ordered, generatePlurals, plural)
  {
    var t := Table(ordered, generatePlurals, plural);
    var u := Table(ordered + [x], generatePlurals, plural);
    BundlesStep(ordered, generatePlurals, plural, x);
    assert u.keys == t.keys;
    forall b | b in u.items ensures u.items[b] == t.items[b] {
      BucketStep(ordered, generatePlurals, plural, x, b);
    }
    assert u.items == t.items;
  }

  /** One more string in the loop appends it to its bundle's list, creating the list when
      the bundle is new. */
  lemma TableStep(ordered: seq<LocalizedString>, generatePlurals: bool, plural: bool, x: LocalizedString)
    ensures Table(ordered, generatePlurals, plural).Valid()
    ensures Table(ordered + [x], generatePlurals, plural) ==
      if GoesTo(generatePlurals, plural, x) then AppendTo(Table(ordered, generatePlurals, plural), x.bundle, x)
      else Table(ordered, generatePlurals, plural)
  {
    TableValid(ordered, generatePlurals, plural);
    if GoesTo(generatePlurals, plural, x) {
      TableGrows(ordered, generatePlurals, plural, x);
    } else {
      TableKept(ordered, generatePlurals, plural, x);
    }
  }

  lemma EntriesOfAppend(hash: string -> string, ss: seq<LocalizedString>, x: LocalizedString)
    ensures EntriesOf(hash, ss + [x]) == EntriesOf(hash, ss) + [EntryOf(hash, x)]
  {
    var l := EntriesOf(hash, ss + [x]);
    var r := EntriesOf(hash, ss) + [EntryOf(hash, x)];
    assert |l| == |r|;
    forall i | 0 <= i < |l| ensures l[i] == r[i] {
      if i < |ss| {
        assert (ss + [x])[i] == ss[i];
      }
    }
  }

  lemma EntryTableStep(hash: string -> string, t: Dict<seq<LocalizedString>>, bundle: string, x: LocalizedString)
    requires t.Valid()
    ensures EntryTable(hash, t).Valid()
    ensures EntryTable(hash, AppendTo(t, bundle, x)) == AppendTo(EntryTable(hash, t), bundle, EntryOf(hash, x))
  {
    EntryTableValid(hash, t);
    var before := if bundle in t.items then t.items[bundle] else [];
    assert [] + [x] == [x];
    assert [] + [EntryOf(hash, x)] == [EntryOf(hash, x)];
    EntryTableUpdate(hash, AppendTo(t, bundle, x).keys, t.items, bundle, before, x);
  }

  /** Appending to one list of a table appends its entry to the same list of the entry
      table, whatever the key order. */
  lemma EntryTableUpdate(hash: string -> string, keys: seq<string>, items: map<string, seq<LocalizedString>>,
                         bundle: string, before: seq<LocalizedString>, x: LocalizedString)
    ensures EntryTable(hash, Dict(keys, items[bundle := before + [x]])) ==
      Dict(keys, EntryTable(hash, Dict(keys, items)).items[bundle := EntriesOf(hash, before) + [EntryOf(hash, x)]])
  {
    EntriesOfAppend(hash, before, x);
    EntriesMapUpdate(hash, items, bundle, before + [x], items[bundle := before + [x]]);
  }

  lemma EntriesMapUpdate(hash: string -> string, m: map<string, seq<LocalizedString>>, k: string,
                         v: seq<LocalizedString>, updated: map<string, seq<LocalizedString>>)
    requires updated == m[k := v]
    ensures (map b | b in updated :: EntriesOf(hash, updated[b])) ==
      (map b | b in m :: EntriesOf(hash, m[b]))[k := EntriesOf(hash, v)]
  {
  }

  /** One pass of `get_strings`'s loop: a plural string is appended, as an entry, to the
      plural table, any other string to the normal table. */
  lemma GroupStep(hash: string -> string, ordered: seq<LocalizedString>, generatePlurals: bool, i: nat,
                  normal: Dict<seq<LocalizedString>>, plurals: Dict<seq<LocalizedString>>,
                  plural: Dict<seq<PluralEntry>>)
    requires i < |ordered|
    requires normal == Table(ordered[..i], generatePlurals, false)
    requires plurals == Table(ordered[..i], generatePlurals, true)
    requires plural == EntryTable(hash, plurals)
    ensures normal.Valid() && plurals.Valid() && plural.Valid()
    ensures var s := ordered[i];
      if IsPlural(generatePlurals, s) then
        && normal == Table(ordered[..i + 1], generatePlurals, false)
        && AppendTo(plurals, s.bundle, s) == Table(ordered[..i + 1], generatePlurals, true)
        && AppendTo(plural, s.bundle, EntryOf(hash, s)) == EntryTable(hash, AppendTo(plurals, s.bundle, s))
      else
        && AppendTo(normal, s.bundle, s) == Table(ordered[..i + 1], generatePlurals, false)
        && plurals == Table(ordered[..i + 1], generatePlurals, true)
  {
    var s := ordered[i];
    assert ordered[..i + 1] == ordered[..i] + [s];
    TableStep(ordered[..i], generatePlurals, false, s);
    TableStep(ordered[..i], generatePlurals, true, s);
    EntryTableValid(hash, plurals);
    if IsPlural(generatePlurals, s) {
      EntryTableStep(hash, plurals, s.bundle, s);
    }
  }

  /** `get_strings`'s loop over the sorted strings. */
  method Group(hash: string -> string, detected: seq<LocalizedString>, generatePlurals: bool) returns (t: Tables)
    ensures t == Grouped(hash, detected, generatePlurals)
  {
    var ordered := Sort(Distinct(detected), StringOrder(hash));
    var normal: Dict<seq<LocalizedString>> := EmptyDict();
    var plural: Dict<seq<PluralEntry>> := EmptyDict();
    ghost var plurals: Dict<seq<LocalizedString>> := EmptyDict();
    assert Table([], generatePlurals, false) == normal;
    assert Table([], generatePlurals, true) == plurals;
    for i := 0 to |ordered|
      invariant normal == Table(ordered[..i], generatePlurals, false)
      invariant plurals == Table(ordered[..i], generatePlurals, true)
      invariant plural == EntryTable(hash, plurals)
    {
      var s := ordered[i];
      GroupStep(hash, ordered, generatePlurals, i, normal, plurals, plural);
      var matches := Tokens(s.value);
      if !generatePlurals || |matches| == 0 {
        normal := AppendTo(normal, s.bundle, s);
        continue;
      }
      var variables := Distinct(matches);
      plural := AppendTo(plural, s.bundle, PluralEntry(Key(hash, s), s.value, variables));
      plurals := AppendTo(plurals, s.bundle, s);
    }
    assert ordered[..|ordered|] == ordered;
    t := Tables(normal, plural);
  }

  /** `get_strings`: detect the strings of every file, then group them. */
  method GetStrings(hash: string -> string, codeFiles: seq<string>, read: string -> string, generatePlurals: bool)
    returns (r: Result<Tables>)
    ensures r.Err? <==> InFiles(codeFiles, read).Err?
    ensures r.Err? ==> r.error == InFiles(codeFiles, read).error
    ensures r.Ok? ==> r.value == Grouped(hash, InFiles(codeFiles, read).value, generatePlurals)
  {
    var detected := StringsInCodeFiles(codeFiles, read);
    if detected.Err? {
      return Err(detected.error);
    }
    var t := Group(hash, detected.value, generatePlurals);
    return Ok(t);
  }

  /** A table keeps the order of the sorted strings and lists none twice. */
  lemma {:induction false} BucketOrdered(ordered: seq<LocalizedString>, lt: (LocalizedString, LocalizedString) -> bool,
                                         generatePlurals: bool, plural: bool, bundle: string)
    requires Sorted(ordered, lt) && NoDuplicates(ordered)
    ensures Sorted(Bucket(ordered, generatePlurals, plural, bundle), lt)
    ensures NoDuplicates(Bucket(ordered, generatePlurals, plural, bundle))
  {
    if ordered != [] {
      var init := ordered[..|ordered| - 1];
      var x := ordered[|ordered| - 1];
      assert ordered == init + [x];
      LastAfterAll(init, x, lt);
      BucketOrdered(init, lt, generatePlurals, plural, bundle);
      BucketStep(init, generatePlurals, plural, x, bundle);
      var e := Bucket(init, generatePlurals, plural, bundle);
      if x.bundle == bundle && GoesTo(generatePlurals, plural, x) {
        BucketMembers(init, generatePlurals, plural, bundle);
        OrderedAppend(e, x, lt);
      }
    }
  }

  /** The prefix of an ordered sequence without repeats is one too, and its last element
      comes after every other and differs from it. */
  lemma LastAfterAll<T>(init: seq<T>, x: T, lt: (T, T) -> bool)
    requires Sorted(init + [x], lt) && NoDuplicates(init + [x])
    ensures Sorted(init, lt) && NoDuplicates(init)
    ensures forall y :: y in init ==> !lt(x, y) && x != y
  {
    var s := init + [x];
    forall i, j | 0 <= i < j < |init| ensures !lt(init[j], init[i]) && init[i] != init[j] {
      assert init[i] == s[i] && init[j] == s[j];
    }
    forall y | y in init ensures !lt(x, y) && x != y {
      var k :| 0 <= k < |init| && init[k] == y;
      assert s[k] == y && s[|init|] == x;
    }
  }

  /** Appending an element that comes after every element and differs from each. */
  lemma OrderedAppend<T>(e: seq<T>, x: T, lt: (T, T) -> bool)
    requires Sorted(e, lt) && NoDuplicates(e)
    requires forall y :: y in e ==> !lt(x, y) && x != y
    ensures Sorted(e + [x], lt) && NoDuplicates(e + [x])
  {
    forall i, j | 0 <= i < j < |e + [x]| ensures !lt((e + [x])[j], (e + [x])[i]) && (e + [x])[i] != (e + [x])[j] {
      if j == |e| {
        assert (e + [x])[i] in e;
      }
    }
  }

  /** Where `get_strings` puts each detected string: a string with `%#@…@` tokens goes, as a
      stringsdict entry, to the plural table when plural entries are asked for; every other
      string goes to the normal table; both under the string's own bundle. */
  lemma GroupedPartition(hash: string -> string, detected: seq<LocalizedString>, generatePlurals: bool,
                         s: LocalizedString)
    requires s in detected
    ensures var t := Grouped(hash, detected, generatePlurals);
      if IsPlural(generatePlurals, s) then
        s.bundle in t.plural.items && EntryOf(hash, s) in t.plural.items[s.bundle]
        && forall b :: b in t.normal.items ==> s !in t.normal.items[b]
      else
        s.bundle in t.normal.items && s in t.normal.items[s.bundle]
  {
    OrderedProperties(hash, detected);
    var ordered := Ordered(hash, detected);
    TablePlacement(ordered, generatePlurals, s);
    if IsPlural(generatePlurals, s) {
      var strings := Table(ordered, generatePlurals, true).items[s.bundle];
      var k :| 0 <= k < |strings| && strings[k] == s;
      assert EntriesOf(hash, strings)[k] == EntryOf(hash, s);
    }
  }

  /** No list of the table holds `s`. */
  predicate NotListed(t: Dict<seq<LocalizedString>>, s: LocalizedString) {
    forall b :: b in t.items ==> s !in t.items[b]
  }

  /** A string of `ordered` is listed under its bundle in the table of its side, and
      nowhere in the other table. */
  lemma TablePlacement(ordered: seq<LocalizedString>, generatePlurals: bool, s: LocalizedString)
    requires s in ordered
    ensures var side := IsPlural(generatePlurals, s);
      && s.bundle in Table(ordered, generatePlurals, side).items
      && s in Table(ordered, generatePlurals, side).items[s.bundle]
    ensures NotListed(Table(ordered, generatePlurals, !IsPlural(generatePlurals, s)), s)
  {
    var side := IsPlural(generatePlurals, s);
    BundlesMembers(ordered, generatePlurals, side, s.bundle);
    BucketMembers(ordered, generatePlurals, side, s.bundle);
    var other := !side;
    forall b ensures s !in Bucket(ordered, generatePlurals, other, b) {
      BucketMembers(ordered, generatePlurals, other, b);
    }
  }

  /** The tables hold nothing else: each normal list holds detected strings of its bundle,
      and each plural list the entries of detected strings of its bundle that have tokens. */
  lemma GroupedMembers(hash: string -> string, detected: seq<LocalizedString>, generatePlurals: bool, bundle: string)
    ensures var t := Grouped(hash, detected, generatePlurals);
      && (bundle in t.normal.items ==> forall s :: s in t.normal.items[bundle] <==>
            s in detected && s.bundle == bundle && !IsPlural(generatePlurals, s))
      && (bundle in t.plural.items ==> forall e :: e in t.plural.items[bundle] ==>
            exists s :: s in detected && s.bundle == bundle && IsPlural(generatePlurals, s) && e == EntryOf(hash, s))
  {
    OrderedProperties(hash, detected);
    var t := Grouped(hash, detected, generatePlurals);
    var ordered := Ordered(hash, detected);
    BucketMembers(ordered, generatePlurals, false, bundle);
    if bundle in t.plural.items {
      var strings := Bucket(ordered, generatePlurals, true, bundle);
      BucketMembers(ordered, generatePlurals, true, bundle);
      forall e | e in t.plural.items[bundle]
        ensures exists s :: s in detected && s.bundle == bundle && IsPlural(generatePlurals, s) && e == EntryOf(hash, s)
      {
        var k :| 0 <= k < |strings| && EntriesOf(hash, strings)[k] == e;
        assert strings[k] in strings;
      }
    }
  }

  /** Each normal list is ordered by `(key, key_extension, comment)` without repeats, and
      each plural list by key. */
  lemma GroupedOrdered(hash: string -> string, detected: seq<LocalizedString>, generatePlurals: bool, bundle: string)
    ensures var t := Grouped(hash, detected, generatePlurals);
      && (bundle in t.normal.items ==>
            Sorted(t.normal.items[bundle], StringOrder(hash)) && NoDuplicates(t.normal.items[bundle]))
      && (bundle in t.plural.items ==> forall i, j :: 0 <= i < j < |t.plural.items[bundle]| ==>
            !LexLt(t.plural.items[bundle][j].key, t.plural.items[bundle][i].key))
  {
    OrderedProperties(hash, detected);
    var t := Grouped(hash, detected, generatePlurals);
    var ordered := Ordered(hash, detected);
    BucketOrdered(ordered, StringOrder(hash), generatePlurals, false, bundle);
    BucketOrdered(ordered, StringOrder(hash), generatePlurals, true, bundle);
    if bundle in t.plural.items {
      var strings := Bucket(ordered, generatePlurals, true, bundle);
      var es := t.plural.items[bundle];
      forall i, j | 0 <= i < j < |es| ensures !LexLt(es[j].key, es[i].key) {
        assert !SortKeyLt(hash, strings[j], strings[i]);
      }
    }
  }

  /** Without plural generation every string is a normal string and the plural table is
      empty. */
  lemma GroupedWithoutPlurals(hash: string -> string, detected: seq<LocalizedString>)
    ensures Grouped(hash, detected, false).plural == Dict([], map[])
    ensures forall s :: s in detected ==>
      s.bundle in Grouped(hash, detected, false).normal.items && s in Grouped(hash, detected, false).normal.items[s.bundle]
  {
    var ordered := Ordered(hash, detected);
    var plurals := Bundles(ordered, false, true);
    HeadIsMember(plurals);
    if plurals != [] {
      BundlesMembers(ordered, false, true, plurals[0]);
    }
    forall s | s in detected
      ensures s.bundle in Grouped(hash, detected, false).normal.items && s in Grouped(hash, detected, false).normal.items[s.bundle]
    {
      GroupedPartition(hash, detected, false, s);
    }
  }

  /** A token found from some position on means the scan from the start finds one too. */
  lemma {:induction false} TokensAfter(v: string, i: nat)
    requires i <= |v| && |Tokens(v[i..])| > 0
    ensures |Tokens(v)| > 0
  {
    if i > 0 && |v| >= 3 && !(v[..3] == "%#@" && TokenClose(v[3..]).Some?) {
      assert v[1..][i - 1..] == v[i..];
      TokensAfter(v[1..], i - 1);
    } else if i == 0 {
      assert v[0..] == v;
    }
  }

  /** `%#@` at `i` and the closing `@` at `j`, with no line break in between. */
  predicate TokenAt(v: string, i: nat, j: nat) {
    i + 3 <= j < |v| && v[i..i + 3] == "%#@" && v[j] == '@' && '@' !in v[i + 3..j] && '\n' !in v[i + 3..j]
  }

  lemma {:induction false} TokenFirst(v: string) returns (i: nat, j: nat)
    requires |Tokens(v)| > 0
    ensures TokenAt(v, i, j)
    decreases |v|
  {
    if v[..3] == "%#@" && TokenClose(v[3..]).Some? {
      var k := TokenClose(v[3..]).value;
      assert v[3..3 + k] == v[3..][..k];
      i, j := 0, 3 + k;
    } else {
      var i', j' := TokenFirst(v[1..]);
      TokenAtShift(v, i', j');
      i, j := i' + 1, j' + 1;
    }
  }

  lemma TokenAtShift(v: string, i: nat, j: nat)
    requires |v| > 0 && TokenAt(v[1..], i, j)
    ensures TokenAt(v, i + 1, j + 1)
  {
    assert v[1..][i..i + 3] == v[i + 1..i + 4];
    assert v[1..][i + 3..j] == v[i + 4..j + 1];
  }

  lemma {:induction false} TokenCloseFound(w: string, j: nat)
    requires j < |w| && w[j] == '@' && '\n' !in w[..j]
    ensures TokenClose(w).Some?
  {
    if w[0] != '@' {
      assert w[0] in w[..j];
      assert w[1..][..j - 1] == w[1..j];
      TokenCloseFound(w[1..], j - 1);
    }
  }

  /** With plural generation, a string becomes a stringsdict entry exactly when its value
      has a `%#@name@` token. */
  lemma PluralIffTokens(s: LocalizedString)
    ensures IsPlural(true, s) <==> exists i: nat, j: nat :: TokenAt(s.value, i, j)
  {
    var v := s.value;
    if exists i: nat, j: nat :: TokenAt(v, i, j) {
      var i: nat, j: nat :| TokenAt(v, i, j);
      var w := v[i..];
      assert w[..3] == "%#@";
      assert w[3..][..j - i - 3] == v[i + 3..j];
      TokenCloseFound(w[3..], j - i - 3);
      TokensAfter(v, i);
    }
    if IsPlural(true, s) {
      var i, j := TokenFirst(v);
    }
  }

  // ---------------------------------------------------------------------------------------
  // Merging into a stringsdict (__init__.py:101-141)

  /** The first existing entry with the key (`next(…, None)`). */
  function FindByKey(existing: seq<PluralEntry>, key: string): (r: Option<PluralEntry>)
    ensures r.None? <==> forall i :: 0 <= i < |existing| ==> existing[i].key != key
    ensures r.Some? ==> r.value.key == key && r.value in existing
  {
    if existing == [] then None
    else if existing[0].key == key then Some(existing[0])
    else
      var r := FindByKey(existing[1..], key);
      assert forall i :: 1 <= i < |existing| ==> existing[i] == existing[1..][i - 1];
      r
  }

  /** The entry found is the first with the key: no earlier entry has it. */
  lemma {:induction false} FindByKeyFirst(existing: seq<PluralEntry>, key: string)
    ensures var r := FindByKey(existing, key);
      r.Some? ==>
        exists i :: 0 <= i < |existing| && existing[i] == r.value && forall j :: 0 <= j < i ==> existing[j].key != key
    decreases |existing|
  {
    if existing != [] && existing[0].key != key {
      var rest := existing[1..];
      FindByKeyFirst(rest, key);
      var r := FindByKey(rest, key);
      if r.Some? {
        var i :| 0 <= i < |rest| && rest[i] == r.value && forall j :: 0 <= j < i ==> rest[j].key != key;
        assert existing[i + 1] == r.value;
        assert forall j :: 0 <= j < i + 1 ==> existing[j].key != key by {
          forall j | 0 <= j < i + 1 ensures existing[j].key != key {
            if j > 0 {
              assert existing[j] == rest[j - 1];
            }
          }
        }
      }
    } else if existing != [] {
      assert existing[0] == FindByKey(existing, key).value;
    }
  }

  /** `sorted(entry.variables.keys())` */
  function SortedNames(names: seq<string>): seq<string> {
    Sort(names, LexOrder())
  }

  /** Sorted variable-name lists are equal exactly when the entries have the same variable
      names. */
  lemma SortedNamesEqualIff(a: seq<string>, b: seq<string>)
    requires NoDuplicates(a) && NoDuplicates(b)
    ensures SortedNames(a) == SortedNames(b) <==> forall n :: n in a <==> n in b
  {
    LexOrderTotal();
    SortEqualIff(a, b, LexOrder());
    SameElementsPermutation(a, b);
  }

  /** The error merging `entry` raises, if any: the value is compared before the variable
      names. */
  function Conflict(existing: seq<PluralEntry>, entry: PluralEntry): Option<Error> {
    match FindByKey(existing, entry.key)
    case None => None
    case Some(found) =>
      if found.value != entry.value then Some(ValueNamesInconsistent)
      else if SortedNames(entry.variables) != SortedNames(found.variables) then Some(VariableNamesInconsistent)
      else None
  }

  /** An entry conflicts with the existing entry of its key when the values differ, or else
      when the variable names differ; an entry whose key is new never conflicts. */
  lemma ConflictMeaning(existing: seq<PluralEntry>, entry: PluralEntry)
    requires NoDuplicates(entry.variables)
    requires forall e :: e in existing ==> NoDuplicates(e.variables)
    ensures FindByKey(existing, entry.key).None? ==> Conflict(existing, entry).None?
    ensures FindByKey(existing, entry.key).Some? ==>
      var found := FindByKey(existing, entry.key).value;
      && (Conflict(existing, entry) == Some(ValueNamesInconsistent) <==> found.value != entry.value)
      && (Conflict(existing, entry) == Some(VariableNamesInconsistent) <==>
            found.value == entry.value && !(forall n :: n in entry.variables <==> n in found.variables))
      && (Conflict(existing, entry).None? <==>
            found.value == entry.value && forall n :: n in entry.variables <==> n in found.variables)
  {
    if FindByKey(existing, entry.key).Some? {
      var found := FindByKey(existing, entry.key).value;
      SortedNamesEqualIff(entry.variables, found.variables);
    }
  }

  /** What is written under a key: the incoming entry, merged with the existing entry of
      that key when there is one. */
  datatype Written = Written(entry: PluralEntry, mergedWith: Option<PluralEntry>)

  /** The last incoming entry with the key: later entries overwrite `results[entry.key]`. */
  function LastWithKey(entries: seq<PluralEntry>, key: string): Option<PluralEntry> {
    if entries == [] then None
    else if entries[|entries| - 1].key == key then Some(entries[|entries| - 1])
    else LastWithKey(entries[..|entries| - 1], key)
  }

  /** No entry has the key, or the one found is the last entry that has it. */
  lemma {:induction false} LastWithKeyMeaning(entries: seq<PluralEntry>, key: string)
    ensures var r := LastWithKey(entries, key);
      && (r.None? <==> forall i :: 0 <= i < |entries| ==> entries[i].key != key)
      && (r.Some? ==> exists i :: 0 <= i < |entries| && entries[i] == r.value && r.value.key == key
                                  && forall j :: i < j < |entries| ==> entries[j].key != key)
  {
    if entries != [] && entries[|entries| - 1].key != key {
      var init := entries[..|entries| - 1];
      LastWithKeyMeaning(init, key);
      assert forall i :: 0 <= i < |init| ==> entries[i] == init[i];
    }
  }

  function KeysOf(written: seq<(string, Written)>): (keys: seq<string>)
    ensures |keys| == |written| && forall m :: 0 <= m < |written| ==> keys[m] == written[m].0
  {
    seq(|written|, m requires 0 <= m < |written| => written[m].0)
  }

  /** `plistlib.dump(results, sort_keys=True)`: the entries of the dict by ascending key. */
  function PlistContents(results: Dict<Written>): (written: seq<(string, Written)>)
    requires results.Valid()
    ensures StrictlySorted(KeysOf(written), LexOrder())
    ensures forall k :: k in KeysOf(written) <==> k in results.items
    ensures forall m :: 0 <= m < |written| ==> written[m].0 in results.items && written[m].1 == results.items[written[m].0]
  {
    var keys := Sort(results.keys, LexOrder());
    SortDistinctStrictly(results.keys);
    var written := seq(|keys|, m requires 0 <= m < |keys| => (keys[m], results.items[keys[m]]));
    assert KeysOf(written) == keys;
    written
  }

  lemma LastWithKeyStep(entries: seq<PluralEntry>, n: nat, key: string)
    requires n < |entries|
    ensures LastWithKey(entries[..n + 1], key) ==
      if entries[n].key == key then Some(entries[n]) else LastWithKey(entries[..n], key)
  {
    assert entries[..n + 1][..n] == entries[..n];
  }

  lemma MergeDone(existing: seq<PluralEntry>, entries: seq<PluralEntry>, results: Dict<Written>)
    requires results.Valid()
    requires forall k :: k in results.items <==> exists j :: 0 <= j < |entries| && entries[j].key == k
    requires forall k :: k in results.items ==>
      Some(results.items[k].entry) == LastWithKey(entries[..|entries|], k) && results.items[k].mergedWith == FindByKey(existing, k)
    ensures StrictlySorted(KeysOf(PlistContents(results)), LexOrder())
    ensures forall k :: k in KeysOf(PlistContents(results)) <==> exists i :: 0 <= i < |entries| && entries[i].key == k
    ensures forall m :: 0 <= m < |PlistContents(results)| ==>
      Some(PlistContents(results)[m].1.entry) == LastWithKey(entries, PlistContents(results)[m].0)
      && PlistContents(results)[m].1.mergedWith == FindByKey(existing, PlistContents(results)[m].0)
  {
    assert entries[..|entries|] == entries;
  }

  /** The items of the dict the merge loop has built after the first `n` entries, when none
      conflicts. */
  function MergedItems(existing: seq<PluralEntry>, entries: seq<PluralEntry>, n: nat): map<string, Written>
    requires n <= |entries|
  {
    if n == 0 then map[]
    else
      var entry := entries[n - 1];
      MergedItems(existing, entries, n - 1)[entry.key := Written(entry, FindByKey(existing, entry.key))]
  }

  /** The keys of the first `n` entries. */
  function KeySet(entries: seq<PluralEntry>, n: nat): set<string>
    requires n <= |entries|
  {
    if n == 0 then {} else KeySet(entries, n - 1) + {entries[n - 1].key}
  }

  lemma {:induction false} KeySetMembers(entries: seq<PluralEntry>, n: nat)
    requires n <= |entries|
    ensures forall k :: k in KeySet(entries, n) <==> exists j :: 0 <= j < n && entries[j].key == k
  {
    if n > 0 {
      KeySetMembers(entries, n - 1);
      forall k ensures k in KeySet(entries, n) <==> exists j :: 0 <= j < n && entries[j].key == k {
        if k == entries[n - 1].key {
          assert 0 <= n - 1 < n && entries[n - 1].key == k;
        } else {
          assert k in KeySet(entries, n) <==> k in KeySet(entries, n - 1);
          if exists j :: 0 <= j < n && entries[j].key == k {
            var j :| 0 <= j < n && entries[j].key == k;
            assert j < n - 1;
          }
        }
      }
    }
  }

  /** The dict holds exactly the keys of the entries. */
  lemma {:induction false} MergedKeys(existing: seq<PluralEntry>, entries: seq<PluralEntry>, n: nat)
    requires n <= |entries|
    ensures MergedItems(existing, entries, n).Keys == KeySet(entries, n)
  {
    if n > 0 {
      MergedKeys(existing, entries, n - 1);
    }
  }

  /** Each key holds its last entry, merged with the first existing entry of that key. */
  lemma MergedValues(existing: seq<PluralEntry>, entries: seq<PluralEntry>, n: nat)
    requires n <= |entries|
    ensures var d := MergedItems(existing, entries, n);
      forall k :: k in d ==> Some(d[k].entry) == LastWithKey(entries[..n], k) && d[k].mergedWith == FindByKey(existing, k)
  {
    forall k | k in MergedItems(existing, entries, n)
      ensures var d := MergedItems(existing, entries, n);
        Some(d[k].entry) == LastWithKey(entries[..n], k) && d[k].mergedWith == FindByKey(existing, k)
    {
      MergedValueAt(existing, entries, n, k);
    }
  }

  lemma {:induction false} MergedValueAt(existing: seq<PluralEntry>, entries: seq<PluralEntry>, n: nat, k: string)
    requires n <= |entries| && k in MergedItems(existing, entries, n)
    ensures var w := MergedItems(existing, entries, n)[k];
      Some(w.entry) == LastWithKey(entries[..n], k) && w.mergedWith == FindByKey(existing, k)
  {
    LastWithKeyStep(entries, n - 1, k);
    if entries[n - 1].key != k {
      MergedValueAt(existing, entries, n - 1, k);
    }
  }

  /** The lookup of one incoming entry's key among the existing entries, then the checks
      against the entry found: the value first, then the sorted variable names. */
  method CheckEntry(existing: seq<PluralEntry>, entry: PluralEntry)
    returns (existingEntry: Option<PluralEntry>, conflict: Option<Error>)
    ensures existingEntry == FindByKey(existing, entry.key)
    ensures conflict == Conflict(existing, entry)
  {
    existingEntry := FindByKey(existing, entry.key);
    conflict := None;
    if existingEntry.Some? {
      var sortedVariablesForExistingEntry := SortedNames(existingEntry.value.variables);
      var sortedVariablesForEntry := SortedNames(entry.variables);
      if existingEntry.value.value != entry.value {
        conflict := Some(ValueNamesInconsistent);
      } else if sortedVariablesForEntry != sortedVariablesForExistingEntry {
        conflict := Some(VariableNamesInconsistent);
      }
    }
  }

  /** The loop of `create_or_merge_stringsdict_file`: every incoming entry is checked, then
      stored under its key with the existing entry of that key; the first conflict stops it. */
  method MergeEntries(existing: seq<PluralEntry>, entries: seq<PluralEntry>) returns (r: Result<Dict<Written>>)
    ensures r.Err? ==> exists i :: 0 <= i < |entries| && Clean(existing, entries, i)
                                 && Conflict(existing, entries[i]) == Some(r.error)
    ensures r.Ok? ==> Clean(existing, entries, |entries|)
    ensures r.Ok? ==> r.value.Valid() && r.value.items == MergedItems(existing, entries, |entries|)
  {
    var results: Dict<Written> := EmptyDict();
    for i := 0 to |entries|
      invariant Clean(existing, entries, i)
      invariant results.Valid() && results.items == MergedItems(existing, entries, i)
    {
      var entry := entries[i];
      var existingEntry, conflict := CheckEntry(existing, entry);
      if conflict.Some? {
        return Err(conflict.value);
      }
      results := Put(results, entry.key, Written(entry, existingEntry));
    }
    return Ok(results);
  }

  /** No entry among the first `n` conflicts. */
  predicate Clean(existing: seq<PluralEntry>, entries: seq<PluralEntry>, n: nat)
    requires n <= |entries|
  {
    n == 0 || (Clean(existing, entries, n - 1) && Conflict(existing, entries[n - 1]).None?)
  }

  lemma {:induction false} CleanMeaning(existing: seq<PluralEntry>, entries: seq<PluralEntry>, n: nat)
    requires n <= |entries|
    ensures Clean(existing, entries, n) <==> forall j :: 0 <= j < n ==> Conflict(existing, entries[j]).None?
  {
    if n > 0 {
      CleanMeaning(existing, entries, n - 1);
    }
  }

  /** `create_or_merge_stringsdict_file` up to the write: the contents of the plist, keys in
      ascending order, or the first conflict, found before anything is written.
      `existingFile` is the loaded stringsdict when the file exists. */
  method CreateOrMergeStringsdict(existingFile: Option<seq<PluralEntry>>, entries: seq<PluralEntry>)
    returns (r: Result<seq<(string, Written)>>)
    ensures var existing := if existingFile.Some? then existingFile.value else [];
      && (r.Err? <==> exists i :: 0 <= i < |entries| && Conflict(existing, entries[i]).Some?)
      && (r.Err? ==> exists i :: 0 <= i < |entries| && Conflict(existing, entries[i]) == Some(r.error)
                        && forall j :: 0 <= j < i ==> Conflict(existing, entries[j]).None?)
    ensures r.Ok? ==> StrictlySorted(KeysOf(r.value), LexOrder())
    ensures r.Ok? ==> forall k :: k in KeysOf(r.value) <==> exists i :: 0 <= i < |entries| && entries[i].key == k
    ensures var existing := if existingFile.Some? then existingFile.value else [];
      r.Ok? ==> forall m :: 0 <= m < |r.value| ==>
        Some(r.value[m].1.entry) == LastWithKey(entries, r.value[m].0)
        && r.value[m].1.mergedWith == FindByKey(existing, r.value[m].0)
  {
    var existing: seq<PluralEntry> := [];
    if existingFile.Some? {
      existing := existingFile.value;
    }
    var merged := MergeEntries(existing, entries);
    if merged.Err? {
      ghost var i :| 0 <= i < |entries| && Clean(existing, entries, i) && Conflict(existing, entries[i]) == Some(merged.error);
      MergeFailed(existing, entries, i, merged.error);
      return Err(merged.error);
    }
    MergeSucceeded(existing, entries, merged.value);
    return Ok(PlistContents(merged.value));
  }

  /** A conflict after a clean prefix is the first conflict. */
  lemma MergeFailed(existing: seq<PluralEntry>, entries: seq<PluralEntry>, i: nat, e: Error)
    requires i < |entries| && Clean(existing, entries, i) && Conflict(existing, entries[i]) == Some(e)
    ensures exists i :: 0 <= i < |entries| && Conflict(existing, entries[i]) == Some(e)
                        && forall j :: 0 <= j < i ==> Conflict(existing, entries[j]).None?
  {
    CleanMeaning(existing, entries, i);
  }

  /** The dict a clean merge builds, dumped, holds the last entry of every key. */
  lemma MergeSucceeded(existing: seq<PluralEntry>, entries: seq<PluralEntry>, results: Dict<Written>)
    requires Clean(existing, entries, |entries|)
    requires results.Valid() && results.items == MergedItems(existing, entries, |entries|)
    ensures forall i :: 0 <= i < |entries| ==> Conflict(existing, entries[i]).None?
    ensures StrictlySorted(KeysOf(PlistContents(results)), LexOrder())
    ensures forall k :: k in KeysOf(PlistContents(results)) <==> exists i :: 0 <= i < |entries| && entries[i].key == k
    ensures forall m :: 0 <= m < |PlistContents(results)| ==>
      Some(PlistContents(results)[m].1.entry) == LastWithKey(entries, PlistContents(results)[m].0)
      && PlistContents(results)[m].1.mergedWith == FindByKey(existing, PlistContents(results)[m].0)
  {
    CleanMeaning(existing, entries, |entries|);
    MergedKeys(existing, entries, |entries|);
    KeySetMembers(entries, |entries|);
    MergedValues(existing, entries, |entries|);
    MergeDone(existing, entries, results);
  }

  // ---------------------------------------------------------------------------------------
  // Names of the files written per bundle (__init__.py:175-177, 186, 196-198, 243-245, 305-308)

  /** The bundle directory: `.bundle` is appended unless the name contains it anywhere. */
  function BundleDirectory(bundle: string): (name: string)
    ensures Contains(name, ".bundle")
    ensures Contains(bundle, ".bundle") ==> name == bundle
    ensures !Contains(bundle, ".bundle") ==> name == bundle + ".bundle"
  {
    if Contains(bundle, ".bundle") then bundle
    else
      assert OccursAt(bundle + ".bundle", ".bundle", |bundle|);
      bundle + ".bundle"
  }

  /** Naming a directory that already is one changes nothing. */
  lemma BundleDirectoryIdempotent(bundle: string)
    ensures BundleDirectory(BundleDirectory(bundle)) == BundleDirectory(bundle)
  {
  }

  /** The listing file `generate_files` writes for a bundle: every `.bundle` of the
      directory name becomes `.m`. */
  function ListingFileName(bundle: string): string {
    Replace(BundleDirectory(bundle), ".bundle", ".m")
  }

  /** The listing file `has_changes` compares for a bundle: every `.bundle` of the bundle
      name itself becomes `.m`, and an empty result becomes `source_strings.m`. */
  function CheckedListingFileName(bundle: string): (name: string)
    ensures name != ""
  {
    var m := Replace(bundle, ".bundle", ".m");
    if m == "" then "source_strings.m" else m
  }

  lemma {:induction false} ReplaceNonEmpty(s: string, pat: string, rep: string)
    requires |pat| > 0 && |rep| > 0 && Contains(s, pat)
    ensures Replace(s, pat, rep) != ""
  {
    var i: nat :| i <= |s| && OccursAt(s, pat, i);
  }

  /** Both places agree on the listing file exactly when the bundle name contains
      `.bundle`. */
  lemma ListingNamesAgree(bundle: string)
    ensures ListingFileName(bundle) == CheckedListingFileName(bundle) <==> Contains(bundle, ".bundle")
  {
    if Contains(bundle, ".bundle") {
      ReplaceNonEmpty(bundle, ".bundle", ".m");
    } else {
      PlainListingFileName(bundle);
      ReplaceAbsent(bundle, ".bundle", ".m");
      assert |ListingFileName(bundle)| == |bundle| + 2;
      assert "source_strings.m" != ".m";
    }
  }

  /** A name without `.bundle` gets its listing named after it with `.m` appended. */
  lemma {:induction false} PlainListingFileName(bundle: string)
    requires !Contains(bundle, ".bundle")
    ensures ListingFileName(bundle) == bundle + ".m"
  {
    ReplaceAppended(bundle);
  }

  lemma {:induction false} ReplaceAppended(s: string)
    requires !Contains(s, ".bundle")
    ensures Replace(s + ".bundle", ".bundle", ".m") == s + ".m"
    decreases |s|
  {
    var pat := ".bundle";
    var v := s + pat;
    if s == [] {
      assert v == pat;
      assert v[|pat|..] == [];
    } else {
      if |s| >= |pat| {
        assert !OccursAt(s, pat, 0);
        assert v[..|pat|] == s[..|pat|];
      } else {
        assert v[..|pat|][|s|] == '.' && pat[|s|] != '.';
      }
      assert v[..|pat|] != pat;
      assert v[1..] == s[1..] + pat;
      forall i: nat | i <= |s[1..]| ensures !OccursAt(s[1..], pat, i) {
        assert !OccursAt(s, pat, i + 1);
        assert i + |pat| <= |s| - 1 ==> s[1..][i..i + |pat|] == s[i + 1..i + 1 + |pat|];
      }
      ReplaceAppended(s[1..]);
      assert [s[0]] + (s[1..] + ".m") == s + ".m";
    }
  }

  /** Where the two disagree: an empty bundle name is written as `.m` but looked for as
      `source_strings.m`, and a name without `.bundle` such as `Strings` is written as
      `Strings.m` but looked for as `Strings`. */
  lemma ListingNamesDiverge()
    ensures ListingFileName("") == ".m" && CheckedListingFileName("") == "source_strings.m"
    ensures ListingFileName("Strings") == "Strings.m" && CheckedListingFileName("Strings") == "Strings"
  {
    assert !OccursAt("", ".bundle", 0);
    assert ".bundle"[7..] == "";
    assert Replace(".bundle", ".bundle", ".m") == ".m" + Replace("", ".bundle", ".m");
    var strings := "Strings";
    forall i: nat | i <= |strings| ensures !OccursAt(strings, ".bundle", i) {
      if i == 0 {
        assert strings[0] != '.';
      }
    }
    PlainListingFileName(strings);
    assert strings[1..] == "trings";
    assert Replace(strings, ".bundle", ".m") == [strings[0]] + Replace("trings", ".bundle", ".m");
  }

  // ---------------------------------------------------------------------------------------
  // Has the stringsdict changed (__init__.py:230-279)

  /** The pairs `(key, sorted variable names)` of some entries, in their order. */
  function NamePairs(entries: seq<PluralEntry>): (pairs: seq<(string, seq<string>)>)
    ensures |pairs| == |entries|
    ensures forall i :: 0 <= i < |entries| ==> pairs[i] == (entries[i].key, SortedNames(entries[i].variables))
  {
    seq(|entries|, i requires 0 <= i < |entries| => (entries[i].key, SortedNames(entries[i].variables)))
  }

  function KeyOrder(): ((string, seq<string>), (string, seq<string>)) -> bool {
    (p: (string, seq<string>), q: (string, seq<string>)) => LexLt(p.0, q.0)
  }

  /** The pairs sorted by key (stably). */
  function KeysAndVariableNames(entries: seq<PluralEntry>): seq<(string, seq<string>)> {
    Sort(NamePairs(entries), KeyOrder())
  }

  lemma KeyOrderStrictWeak()
    ensures StrictWeakOrder(KeyOrder())
  {
    LexOrderTotal();
    var lt := KeyOrder();
    assert forall p, q :: lt(p, q) == LexOrder()(p.0, q.0);
  }

  ghost predicate DistinctKeys(entries: seq<PluralEntry>) {
    forall i, j :: 0 <= i < j < |entries| ==> entries[i].key != entries[j].key
  }

  lemma SortedPairsStrictly(entries: seq<PluralEntry>)
    requires DistinctKeys(entries)
    ensures StrictlySorted(KeysAndVariableNames(entries), KeyOrder())
    ensures forall p :: p in KeysAndVariableNames(entries) <==> p in NamePairs(entries)
  {
    var pairs := NamePairs(entries);
    var sorted := KeysAndVariableNames(entries);
    KeyOrderStrictWeak();
    SortSorted(pairs, KeyOrder());
    SameMembers(pairs, sorted);
    PairKeysDistinct(entries);
    SortedDistinctStrictly(pairs, sorted);
  }

  /** A permutation has the same members. */
  lemma SameMembers<T>(a: seq<T>, b: seq<T>)
    requires multiset(a) == multiset(b)
    ensures forall p :: p in a <==> p in b
  {
    forall p ensures p in a <==> p in b {
      assert p in a <==> p in multiset(a);
      assert p in b <==> p in multiset(b);
    }
  }

  /** No two pairs share a key. */
  lemma PairKeysDistinct(entries: seq<PluralEntry>)
    requires DistinctKeys(entries)
    ensures forall i, j :: 0 <= i < j < |NamePairs(entries)| ==> NamePairs(entries)[i].0 != NamePairs(entries)[j].0
  {
  }

  /** Sorted by key, with no key twice among the members, is strictly sorted. */
  lemma SortedDistinctStrictly(pairs: seq<(string, seq<string>)>, sorted: seq<(string, seq<string>)>)
    requires forall i, j :: 0 <= i < j < |pairs| ==> pairs[i].0 != pairs[j].0
    requires multiset(pairs) == multiset(sorted) && Sorted(sorted, KeyOrder())
    requires forall p :: p in sorted <==> p in pairs
    ensures StrictlySorted(sorted, KeyOrder())
  {
    assert NoDuplicates(pairs) by {
      forall i, j | 0 <= i < j < |pairs| ensures pairs[i] != pairs[j] {
        assert pairs[i].0 != pairs[j].0;
      }
    }
    PermutationNoDuplicates(pairs, sorted);
    forall i, j | 0 <= i < j < |sorted| ensures LexLt(sorted[i].0, sorted[j].0) {
      assert sorted[i] in pairs && sorted[j] in pairs;
      var a :| 0 <= a < |pairs| && pairs[a] == sorted[i];
      var b :| 0 <= b < |pairs| && pairs[b] == sorted[j];
      assert a != b;
      assert sorted[i].0 != sorted[j].0;
      LexLtTotal(sorted[i].0, sorted[j].0);
    }
  }

  /** Two entries that share a key have the same sorted variable names. The entries of a
      loaded stringsdict never repeat a key, so they always have this property. */
  ghost predicate KeysDetermineNames(entries: seq<PluralEntry>) {
    forall i, j :: 0 <= i < |entries| && 0 <= j < |entries| && entries[i].key == entries[j].key ==>
      SortedNames(entries[i].variables) == SortedNames(entries[j].variables)
  }

  /** The sorted pair lists are equal exactly when both sides hold the same
      `(key, sorted variable names)` pairs, each as many times; values play no part. Only
      the file side must give each key one list of names: the code side may repeat a key. */
  lemma KeysAndVariableNamesEqualIff(a: seq<PluralEntry>, b: seq<PluralEntry>)
    requires KeysDetermineNames(b)
    ensures KeysAndVariableNames(a) == KeysAndVariableNames(b) <==>
      multiset(NamePairs(a)) == multiset(NamePairs(b))
  {
    if multiset(NamePairs(a)) == multiset(NamePairs(b)) {
      KeyOrderStrictWeak();
      SortSorted(NamePairs(a), KeyOrder());
      SortSorted(NamePairs(b), KeyOrder());
      PairsTotalOn(b);
      SortedUnique(KeysAndVariableNames(b), KeysAndVariableNames(a), KeyOrder());
    }
  }

  /** Pairs with the same key are the same pair, so the key order is total on them. */
  lemma PairsTotalOn(entries: seq<PluralEntry>)
    requires KeysDetermineNames(entries)
    ensures TotalOn(KeysAndVariableNames(entries), KeyOrder())
  {
    var pairs := NamePairs(entries);
    var sorted := KeysAndVariableNames(entries);
    forall p, q | p in sorted && q in sorted && !KeyOrder()(p, q) && !KeyOrder()(q, p) ensures p == q {
      assert p in multiset(sorted) && q in multiset(sorted);
      assert p in multiset(pairs) && q in multiset(pairs);
      var i :| 0 <= i < |pairs| && pairs[i] == p;
      var j :| 0 <= j < |pairs| && pairs[j] == q;
      LexLtTotal(p.0, q.0);
    }
  }

  /** A key that the code side repeats never matches a file side that does not: the two
      lists differ even when the repeated entries are identical. */
  lemma RepeatedKeyNeverMatches(a: seq<PluralEntry>, b: seq<PluralEntry>, i: nat, j: nat)
    requires DistinctKeys(b)
    requires i < j < |a| && a[i].key == a[j].key
    ensures KeysAndVariableNames(a) != KeysAndVariableNames(b)
  {
    KeysAndVariableNamesEqualIff(a, b);
    RepeatedKeyCounts(a, b, i, j);
  }

  /** Some pair occurs more often on the code side than on a file side without repeats. */
  lemma RepeatedKeyCounts(a: seq<PluralEntry>, b: seq<PluralEntry>, i: nat, j: nat)
    requires DistinctKeys(b)
    requires i < j < |a| && a[i].key == a[j].key
    ensures multiset(NamePairs(a)) != multiset(NamePairs(b))
  {
    var pa := NamePairs(a);
    var pb := NamePairs(b);
    PairKeysDistinct(b);
    if pa[i] == pa[j] {
      RepeatedPairCounts(pa, pb, i, j);
    } else {
      ClashingPairsCounts(pa, pb, i, j);
    }
  }

  /** A pair that occurs twice occurs more often than in a list where no key repeats. */
  lemma RepeatedPairCounts<K, V>(pa: seq<(K, V)>, pb: seq<(K, V)>, i: nat, j: nat)
    requires forall x, y :: 0 <= x < y < |pb| ==> pb[x].0 != pb[y].0
    requires i < j < |pa| && pa[i] == pa[j]
    ensures multiset(pa) != multiset(pb)
  {
    assert pa == pa[..j] + [pa[j]] + pa[j + 1..];
    assert pa[i] in pa[..j];
    assert multiset(pa)[pa[i]] >= 2;
    assert NoDuplicates(pb);
    NoDuplicatesCount(pb, pa[i]);
  }

  /** Two different pairs with one key cannot both occur in a list where no key repeats. */
  lemma ClashingPairsCounts<K, V>(pa: seq<(K, V)>, pb: seq<(K, V)>, i: nat, j: nat)
    requires forall x, y :: 0 <= x < y < |pb| ==> pb[x].0 != pb[y].0
    requires i < j < |pa| && pa[i] != pa[j] && pa[i].0 == pa[j].0
    ensures multiset(pa) != multiset(pb)
  {
    if pa[i] in pb {
      var x :| 0 <= x < |pb| && pb[x] == pa[i];
      forall y | 0 <= y < |pb| ensures pb[y] != pa[j] {
        if y < x {
          assert pb[y].0 != pb[x].0;
        } else if y > x {
          assert pb[x].0 != pb[y].0;
        }
      }
      assert pa[j] in multiset(pa) && pa[j] !in multiset(pb);
    } else {
      assert pa[i] in multiset(pa) && pa[i] !in multiset(pb);
    }
  }

  /** A bundle whose plural strings repeat a key is reported as changed on every run,
      whatever its stringsdict holds, as long as that file does not repeat a key. */
  lemma RepeatedKeyAlwaysStale(stringsdicts: map<string, seq<PluralEntry>>, bundle: string,
                               entries: seq<PluralEntry>, i: nat, j: nat)
    requires BundleDirectory(bundle) in stringsdicts ==> DistinctKeys(stringsdicts[BundleDirectory(bundle)])
    requires i < j < |entries| && entries[i].key == entries[j].key
    ensures StringsdictStale(stringsdicts, bundle, entries)
  {
    var directory := BundleDirectory(bundle);
    if directory in stringsdicts {
      RepeatedKeyNeverMatches(entries, stringsdicts[directory], i, j);
    }
  }

  /** The stringsdict of a bundle is missing or differs in its keys and variable names.
      `stringsdicts` holds the loaded English stringsdict of each bundle directory. */
  predicate StringsdictStale(stringsdicts: map<string, seq<PluralEntry>>, bundle: string, entries: seq<PluralEntry>) {
    var directory := BundleDirectory(bundle);
    directory !in stringsdicts || KeysAndVariableNames(entries) != KeysAndVariableNames(stringsdicts[directory])
  }

  /** The loops of `has_strings_dict_changes` that build the pair list of some entries. */
  method CollectKeysAndVariableNames(entries: seq<PluralEntry>) returns (pairs: seq<(string, seq<string>)>)
    ensures pairs == KeysAndVariableNames(entries)
  {
    var collected: seq<(string, seq<string>)> := [];
    for i := 0 to |entries|
      invariant |collected| == i
      invariant forall k :: 0 <= k < i ==> collected[k] == (entries[k].key, SortedNames(entries[k].variables))
    {
      var sortedVariableNames := SortedNames(entries[i].variables);
      collected := collected + [(entries[i].key, sortedVariableNames)];
    }
    assert collected == NamePairs(entries);
    pairs := Sort(collected, KeyOrder());
  }

  /** `has_strings_dict_changes`: true at the first bundle whose stringsdict is missing or
      differs. */
  method HasStringsDictChanges(stringsdicts: map<string, seq<PluralEntry>>, byBundle: Dict<seq<PluralEntry>>)
    returns (changed: bool)
    requires byBundle.Valid()
    ensures changed <==>
      exists i :: 0 <= i < |byBundle.keys| && StringsdictStale(stringsdicts, byBundle.keys[i], byBundle.items[byBundle.keys[i]])
  {
    for i := 0 to |byBundle.keys|
      invariant NoneBefore(byBundle.keys, k => BundleStale(stringsdicts, byBundle, k), i)
    {
      var bundleName := byBundle.keys[i];
      var stale := BundleChanged(stringsdicts, bundleName, byBundle.items[bundleName]);
      if stale {
        StaleFound(stringsdicts, byBundle, i);
        return true;
      }
    }
    NoneBeforeMeaning(byBundle.keys, k => BundleStale(stringsdicts, byBundle, k), |byBundle.keys|);
    return false;
  }

  /** The body of the loop of `has_strings_dict_changes` for one bundle. */
  method BundleChanged(stringsdicts: map<string, seq<PluralEntry>>, bundleName: string, entries: seq<PluralEntry>)
    returns (stale: bool)
    ensures stale == StringsdictStale(stringsdicts, bundleName, entries)
  {
    var name := BundleDirectory(bundleName);
    if name !in stringsdicts {
      return true;
    }
    var fromFile := CollectKeysAndVariableNames(stringsdicts[name]);
    var fromCode := CollectKeysAndVariableNames(entries);
    return fromCode != fromFile;
  }

  /** The bundle `k` is listed and its stringsdict is missing or differs. */
  predicate BundleStale(stringsdicts: map<string, seq<PluralEntry>>, byBundle: Dict<seq<PluralEntry>>, k: string) {
    k in byBundle.items && StringsdictStale(stringsdicts, k, byBundle.items[k])
  }

  /** No element among the first `n` of `s` satisfies `p`. */
  predicate NoneBefore<T>(s: seq<T>, p: T -> bool, n: nat)
    requires n <= |s|
  {
    n == 0 || (NoneBefore(s, p, n - 1) && !p(s[n - 1]))
  }

  lemma {:induction false} NoneBeforeMeaning<T>(s: seq<T>, p: T -> bool, n: nat)
    requires n <= |s|
    ensures NoneBefore(s, p, n) <==> forall j :: 0 <= j < n ==> !p(s[j])
  {
    if n > 0 {
      NoneBeforeMeaning(s, p, n - 1);
    }
  }

  lemma StaleFound(stringsdicts: map<string, seq<PluralEntry>>, byBundle: Dict<seq<PluralEntry>>, i: nat)
    requires byBundle.Valid() && i < |byBundle.keys|
    requires StringsdictStale(stringsdicts, byBundle.keys[i], byBundle.items[byBundle.keys[i]])
    ensures exists i :: 0 <= i < |byBundle.keys| && StringsdictStale(stringsdicts, byBundle.keys[i], byBundle.items[byBundle.keys[i]])
  {
  }

  // ---------------------------------------------------------------------------------------
  // Listing files and `has_changes` (__init__.py:66-98, 282-330)

  /** The text of a listing file: each string rendered as an `NSLocalizedString` call on a
      line of its own; `render` stands for `ns_localized_format`. */
  function Listing(render: LocalizedString -> string, strings: seq<LocalizedString>): string {
    if strings == [] then ""
    else Listing(render, strings[..|strings| - 1]) + render(strings[|strings| - 1]) + "\n"
  }

  /** Listings concatenate: one file's text is the texts of its parts in order. */
  lemma {:induction false} ListingAppend(render: LocalizedString -> string, a: seq<LocalizedString>, b: seq<LocalizedString>)
    ensures Listing(render, a + b) == Listing(render, a) + Listing(render, b)
    decreases |b|
  {
    if b == [] {
      assert a + b == a;
    } else {
      var init := b[..|b| - 1];
      ListingAppend(render, a, init);
      assert (a + b)[..|a + b| - 1] == a + init;
      assert (a + b)[|a + b| - 1] == b[|b| - 1];
    }
  }

  /** The temporary listing of every bundle of the normal table. */
  function TemporaryListings(render: LocalizedString -> string, normal: Dict<seq<LocalizedString>>): map<string, string> {
    map b | b in normal.items :: Listing(render, normal.items[b])
  }

  /** A bundle's listing file is missing, or its text differs from the new listing. */
  predicate ListingStale(listings: map<string, string>, bundle: string, listing: string) {
    var name := CheckedListingFileName(bundle);
    name !in listings || listings[name] != listing
  }

  /** The position of the first bundle whose listing is stale, or the number of bundles. */
  function FirstStale(listings: map<string, string>, render: LocalizedString -> string,
                      normal: Dict<seq<LocalizedString>>, from: nat): (n: nat)
    requires normal.Valid() && from <= |normal.keys|
    ensures from <= n <= |normal.keys|
    ensures forall j :: from <= j < n ==> !ListingStale(listings, normal.keys[j], Listing(render, normal.items[normal.keys[j]]))
    ensures n < |normal.keys| ==> ListingStale(listings, normal.keys[n], Listing(render, normal.items[normal.keys[n]]))
    decreases |normal.keys| - from
  {
    if from == |normal.keys| then from
    else if ListingStale(listings, normal.keys[from], Listing(render, normal.items[normal.keys[from]])) then from
    else FirstStale(listings, render, normal, from + 1)
  }

  /** The temporary files `has_changes` deletes: those of the bundles before the first stale
      one, and that one's too when its listing file exists. */
  function RemovedTemporaries(listings: map<string, string>, render: LocalizedString -> string,
                              normal: Dict<seq<LocalizedString>>): set<string>
    requires normal.Valid()
  {
    var n := FirstStale(listings, render, normal, 0);
    var upTo := if n < |normal.keys| && CheckedListingFileName(normal.keys[n]) in listings then n + 1 else n;
    set j | 0 <= j < upTo :: normal.keys[j]
  }

  /** The temporary listings of the first `n` bundles. */
  function ListingsUpTo(render: LocalizedString -> string, normal: Dict<seq<LocalizedString>>, n: nat): map<string, string>
    requires normal.Valid() && n <= |normal.keys|
  {
    map b | b in normal.keys[..n] :: Listing(render, normal.items[b])
  }

  lemma ListingsUpToStep(render: LocalizedString -> string, normal: Dict<seq<LocalizedString>>, n: nat)
    requires normal.Valid() && n < |normal.keys|
    ensures ListingsUpTo(render, normal, n + 1) ==
      ListingsUpTo(render, normal, n)[normal.keys[n] := Listing(render, normal.items[normal.keys[n]])]
  {
    assert normal.keys[..n + 1] == normal.keys[..n] + [normal.keys[n]];
  }

  lemma ListingsUpToAll(render: LocalizedString -> string, normal: Dict<seq<LocalizedString>>)
    requires normal.Valid()
    ensures ListingsUpTo(render, normal, |normal.keys|) == TemporaryListings(render, normal)
  {
    assert normal.keys[..|normal.keys|] == normal.keys;
  }

  lemma UnionUpdate<K, V>(a: map<K, V>, b: map<K, V>, k: K, v: V)
    ensures (a + b)[k := v] == a + b[k := v]
  {
  }

  /** The inner loop of `generate_code_strings_file`: one line per string. */
  method WriteListing(render: LocalizedString -> string, strings: seq<LocalizedString>) returns (contents: string)
    ensures contents == Listing(render, strings)
  {
    contents := "";
    for k := 0 to |strings|
      invariant contents == Listing(render, strings[..k])
    {
      assert strings[..k + 1][..k] == strings[..k];
      contents := contents + render(strings[k]) + "\n";
    }
    assert strings[..|strings|] == strings;
  }

  /** The files the generator reads and writes. File names in `listings` are relative to the
      LocalizedStringKit folder; `stringsdicts` holds the loaded English stringsdict of each
      bundle directory; `temporaries` holds the temporary listing of each bundle. */
  class Workspace {
    var listings: map<string, string>
    var stringsdicts: map<string, seq<PluralEntry>>
    var temporaries: map<string, string>

    constructor (listings: map<string, string>, stringsdicts: map<string, seq<PluralEntry>>)
      ensures this.listings == listings && this.stringsdicts == stringsdicts && temporaries == map[]
    {
      this.listings := listings;
      this.stringsdicts := stringsdicts;
      this.temporaries := map[];
    }

    /** `generate_code_strings_file`: group the strings and write one temporary listing per
        bundle of the normal table; returns those bundles, in order, and the plural table. */
    method GenerateCodeStringsFile(hash: string -> string, render: LocalizedString -> string,
                                   codeFiles: seq<string>, read: string -> string, generatePlurals: bool)
      returns (r: Result<(seq<string>, Dict<seq<PluralEntry>>)>)
      modifies this
      ensures listings == old(listings) && stringsdicts == old(stringsdicts)
      ensures r.Err? <==> InFiles(codeFiles, read).Err?
      ensures r.Err? ==> r.error == InFiles(codeFiles, read).error && temporaries == old(temporaries)
      ensures r.Ok? ==>
        var t := Grouped(hash, InFiles(codeFiles, read).value, generatePlurals);
        && r.value == (t.normal.keys, t.plural)
        && temporaries == old(temporaries) + TemporaryListings(render, t.normal)
    {
      var grouped := GetStrings(hash, codeFiles, read, generatePlurals);
      if grouped.Err? {
        return Err(grouped.error);
      }
      var normal := grouped.value.normal;
      TableValid(Ordered(hash, InFiles(codeFiles, read).value), generatePlurals, false);
      WriteTemporaries(render, normal);
      return Ok((normal.keys, grouped.value.plural));
    }

    /** The loops of `generate_code_strings_file` over the bundles: one temporary listing per
        bundle, holding that bundle's strings. */
    method WriteTemporaries(render: LocalizedString -> string, normal: Dict<seq<LocalizedString>>)
      requires normal.Valid()
      modifies this
      ensures listings == old(listings) && stringsdicts == old(stringsdicts)
      ensures temporaries == old(temporaries) + TemporaryListings(render, normal)
    {
      for i := 0 to |normal.keys|
        invariant listings == old(listings) && stringsdicts == old(stringsdicts)
        invariant temporaries == old(temporaries) + ListingsUpTo(render, normal, i)
      {
        var bundle := normal.keys[i];
        var contents := WriteListing(render, normal.items[bundle]);
        ListingsUpToStep(render, normal, i);
        UnionUpdate(old(temporaries), ListingsUpTo(render, normal, i), bundle, contents);
        temporaries := temporaries[bundle := contents];
      }
      ListingsUpToAll(render, normal);
    }

    /** One step of the loop of `has_changes`: compare a bundle's listing file with its
        temporary listing, then delete the temporary listing; nothing is compared or deleted
        when the listing file is missing. */
    method CompareListing(bundle: string) returns (missing: bool, differ: bool)
      requires bundle in temporaries
      modifies this
      ensures listings == old(listings) && stringsdicts == old(stringsdicts)
      ensures missing <==> CheckedListingFileName(bundle) !in listings
      ensures missing ==> temporaries == old(temporaries)
      ensures !missing ==>
        && temporaries == old(temporaries) - {bundle}
        && (differ <==> listings[CheckedListingFileName(bundle)] != old(temporaries)[bundle])
    {
      var mFile := Replace(bundle, ".bundle", ".m");
      if mFile == "" {
        mFile := "source_strings.m";
      }
      if mFile !in listings {
        return true, false;
      }
      var filesDiffer := listings[mFile] != temporaries[bundle];
      if bundle in temporaries {
        temporaries := temporaries - {bundle};
      }
      return false, filesDiffer;
    }

    /** The loop of `has_changes` over the bundles of the normal table: true at the first
        bundle whose listing file is missing or differs; each compared temporary listing is
        deleted, but none after a missing listing file or after the first difference. */
    method CompareListings(render: LocalizedString -> string, bundles: seq<string>,
                           ghost normal: Dict<seq<LocalizedString>>, ghost base: map<string, string>)
      returns (differ: bool)
      requires normal.Valid() && bundles == normal.keys
      requires temporaries == base + TemporaryListings(render, normal)
      modifies this
      ensures listings == old(listings) && stringsdicts == old(stringsdicts)
      ensures differ <==>
        exists i :: 0 <= i < |normal.keys| && ListingStale(listings, normal.keys[i], Listing(render, normal.items[normal.keys[i]]))
      ensures temporaries == (base + TemporaryListings(render, normal)) - RemovedTemporaries(listings, render, normal)
    {
      ghost var created := base + TemporaryListings(render, normal);
      for i := 0 to |bundles|
        invariant listings == old(listings) && stringsdicts == old(stringsdicts)
        invariant i <= FirstStale(listings, render, normal, 0)
        invariant temporaries == created - Prefix(bundles, i)
      {
        StillCreated(base, render, normal, i);
        var missing, filesDiffer := CompareListing(bundles[i]);
        if missing {
          RemovedAtStale(listings, render, normal, i);
          return true;
        }
        Advance(created, bundles, i);
        if filesDiffer {
          RemovedAtStale(listings, render, normal, i);
          return true;
        }
        StaleAfter(listings, render, normal, i);
      }
      NoneStale(listings, render, normal);
      return false;
    }

    /** `has_changes`: true as soon as a bundle's listing file is missing or differs from the
        listing the code gives now, else, when stringsdicts are included, whether any
        stringsdict is stale. Temporary files are deleted only for the bundles compared
        before returning. */
    method HasChanges(hash: string -> string, render: LocalizedString -> string,
                      codeFiles: seq<string>, read: string -> string, includingStringsdicts: bool)
      returns (r: Result<bool>)
      modifies this
      ensures listings == old(listings) && stringsdicts == old(stringsdicts)
      ensures r.Err? <==> InFiles(codeFiles, read).Err?
      ensures r.Err? ==> r.error == InFiles(codeFiles, read).error && temporaries == old(temporaries)
      ensures r.Ok? ==>
        var t := Grouped(hash, InFiles(codeFiles, read).value, includingStringsdicts);
        && t.normal.Valid() && t.plural.Valid()
        && (r.value <==>
              || (exists i :: 0 <= i < |t.normal.keys| &&
                    ListingStale(listings, t.normal.keys[i], Listing(render, t.normal.items[t.normal.keys[i]])))
              || (includingStringsdicts &&
                    exists i :: 0 <= i < |t.plural.keys| && StringsdictStale(stringsdicts, t.plural.keys[i], t.plural.items[t.plural.keys[i]])))
        && temporaries == (old(temporaries) + TemporaryListings(render, t.normal)) - RemovedTemporaries(listings, render, t.normal)
    {
      var generated := GenerateCodeStringsFile(hash, render, codeFiles, read, includingStringsdicts);
      if generated.Err? {
        return Err(generated.error);
      }
      var (currentBundles, stringsdictByBundle) := generated.value;
      ghost var t := Grouped(hash, InFiles(codeFiles, read).value, includingStringsdicts);
      ghost var ordered := Ordered(hash, InFiles(codeFiles, read).value);
      TableValid(ordered, includingStringsdicts, false);
      TableValid(ordered, includingStringsdicts, true);
      EntryTableValid(hash, Table(ordered, includingStringsdicts, true));
      var differ := CompareListings(render, currentBundles, t.normal, old(temporaries));
      if differ {
        return Ok(true);
      }
      if !includingStringsdicts {
        return Ok(false);
      }
      var changed := HasStringsDictChanges(stringsdicts, stringsdictByBundle);
      return Ok(changed);
    }
  }

  /** The first `n` bundles, as a set. */
  function Prefix(bundles: seq<string>, n: nat): set<string>
    requires n <= |bundles|
  {
    set j | 0 <= j < n :: bundles[j]
  }

  lemma PrefixStep(bundles: seq<string>, n: nat)
    requires n < |bundles|
    ensures Prefix(bundles, n + 1) == Prefix(bundles, n) + {bundles[n]}
  {
  }

  /** The loop stops at the first stale bundle; its temporary listing was deleted only when
      its listing file exists. */
  lemma RemovedAtStale(listings: map<string, string>, render: LocalizedString -> string,
                       normal: Dict<seq<LocalizedString>>, n: nat)
    requires normal.Valid() && n < |normal.keys| && n <= FirstStale(listings, render, normal, 0)
    requires ListingStale(listings, normal.keys[n], Listing(render, normal.items[normal.keys[n]]))
    ensures RemovedTemporaries(listings, render, normal) ==
      Prefix(normal.keys, if CheckedListingFileName(normal.keys[n]) in listings then n + 1 else n)
  {
    assert FirstStale(listings, render, normal, 0) == n;
  }

  /** Deleting the next bundle's temporary listing extends the deleted prefix by one. */
  lemma Advance(m: map<string, string>, bundles: seq<string>, n: nat)
    requires n < |bundles|
    ensures (m - Prefix(bundles, n)) - {bundles[n]} == m - Prefix(bundles, n + 1)
  {
    PrefixStep(bundles, n);
  }

  /** When no listing is stale, every temporary listing is deleted. */
  lemma NoneStale(listings: map<string, string>, render: LocalizedString -> string, normal: Dict<seq<LocalizedString>>)
    requires normal.Valid() && FirstStale(listings, render, normal, 0) == |normal.keys|
    ensures !exists i :: 0 <= i < |normal.keys| &&
                         ListingStale(listings, normal.keys[i], Listing(render, normal.items[normal.keys[i]]))
    ensures RemovedTemporaries(listings, render, normal) == Prefix(normal.keys, |normal.keys|)
  {
  }

  lemma StaleAfter(listings: map<string, string>, render: LocalizedString -> string,
                   normal: Dict<seq<LocalizedString>>, n: nat)
    requires normal.Valid() && n < |normal.keys| && n <= FirstStale(listings, render, normal, 0)
    requires !ListingStale(listings, normal.keys[n], Listing(render, normal.items[normal.keys[n]]))
    ensures n + 1 <= FirstStale(listings, render, normal, 0)
  {
  }

  /** Before the loop reaches a bundle, its temporary listing is still there. */
  lemma StillCreated(base: map<string, string>, render: LocalizedString -> string,
                     normal: Dict<seq<LocalizedString>>, n: nat)
    requires normal.Valid() && n < |normal.keys|
    ensures var rest := (base + TemporaryListings(render, normal)) - Prefix(normal.keys, n);
      normal.keys[n] in rest && rest[normal.keys[n]] == Listing(render, normal.items[normal.keys[n]])
  {
  }

  lemma EntryTableValid(hash: string -> string, t: Dict<seq<LocalizedString>>)
    requires t.Valid()
    ensures EntryTable(hash, t).Valid()
  {
  }
}
