/** Finding `Localized…(…)` calls in Swift and Objective-C source text (detection.py):
    escape sanitising, the validation pass over invalid calls, the four call shapes per
    language, and the classification of each match into a localized string. */
module Detection {
  import opened Common
  import opened Text

  /** A `dotstrings.LocalizedString` as the detector builds it. Its key is not stored: it is
      the hash of `KeyInput(value, keyExtension)`, see `Key`. */
  datatype LocalizedString = LocalizedString(
    value: string,
    language: string,
    table: string,
    comment: string,
    keyExtension: Option<string>,
    bundle: string)

  const DefaultBundle: string := "LocalizedStringKit.bundle"
  const DefaultLanguage: string := "en"
  const DefaultTable: string := "LocalizedStringKit"

  /** The text whose digest is a string's key: the value, followed by `:` and the key
      extension when there is one. */
  function KeyInput(value: string, keyExtension: Option<string>): string {
    match keyExtension
    case None => value
    case Some(e) => value + ":" + e
  }

  /** The key of a string, for a digest function `hash` (MD5 in hexadecimal). */
  function Key(hash: string -> string, s: LocalizedString): string {
    hash(KeyInput(s.value, s.keyExtension))
  }

  /** Values without a colon never share a hash input unless value and extension agree. */
  lemma KeyInputInjective(v1: string, e1: Option<string>, v2: string, e2: Option<string>)
    requires ':' !in v1 && ':' !in v2
    requires KeyInput(v1, e1) == KeyInput(v2, e2)
    ensures v1 == v2 && e1 == e2
  {
    KeyInputParts(v1, e1);
    KeyInputParts(v2, e2);
  }

  /** The value ends at the first colon of the hash input; the extension follows it. */
  lemma KeyInputParts(v: string, e: Option<string>)
    requires ':' !in v
    ensures var t := KeyInput(v, e);
      && IndexOf(t, ':') == |v| && t[..|v|] == v
      && (e.Some? <==> |v| < |t|)
      && (e.Some? ==> t[|v| + 1..] == e.value)
  {
    match e
    case None => IndexOfAbsent(v, ':');
    case Some(x) =>
      IndexOfPrefix(v, ':', x);
      assert KeyInput(v, e) == v + [':'] + x;
  }

  /** With a colon in the value, a plain string and a string with an extension share a key. */
  lemma KeyInputCollision()
    ensures KeyInput("a:b", None) == KeyInput("a", Some("b"))
  {
  }

  // ---------------------------------------------------------------------------------------
  // Escape sanitising (detection.py:20-21, 37-39, 127-130)

  /** The two-character escape `\"` of a quote inside a string literal. */
  const QuoteEscape: string := "\\\""
  /** The sentinel that stands for `QuoteEscape` while the patterns run. */
  const TemporaryEscape: string := "$$$"

  function Sanitize(s: string): string {
    Replace(s, QuoteEscape, TemporaryEscape)
  }

  function Restore(s: string): string {
    Replace(s, TemporaryEscape, QuoteEscape)
  }

  /** Restoring a sanitised text gives it back, provided it had no `$` of its own. */
  lemma {:induction false} RestoreSanitize(s: string)
    requires '$' !in s
    ensures Restore(Sanitize(s)) == s
    decreases |s|
  {
    if |s| < 2 {
      assert Sanitize(s) == s;
    } else if s[..2] == QuoteEscape {
      var t := Sanitize(s[2..]);
      assert Sanitize(s) == TemporaryEscape + t;
      assert (TemporaryEscape + t)[..3] == TemporaryEscape;
      assert (TemporaryEscape + t)[3..] == t;
      RestoreSanitize(s[2..]);
      assert s == s[..2] + s[2..];
    } else {
      var t := Sanitize(s[1..]);
      assert Sanitize(s) == [s[0]] + t;
      RestoreSanitize(s[1..]);
      var u := [s[0]] + t;
      if |u| >= 3 {
        assert u[..3][0] == s[0] != '$';
        assert Restore(u) == [s[0]] + Restore(t);
      } else {
        assert Restore(t) == t;
      }
      assert s == [s[0]] + s[1..];
    }
  }

  // ---------------------------------------------------------------------------------------
  // The call patterns (detection.py:199-208, 230-239)

  /** `Name\(\s*Q(.+?)",\s*Q(.*?)"…\s*\)` with `groups` captures: the first capture is
      non-empty, every further one may be empty, and `Q` opens each string literal. */
  datatype CallPattern = CallPattern(name: string, quote: string, groups: nat)

  datatype Dialect = Swift | ObjC

  /** `"` in Swift, `@"` in Objective-C. */
  function Quote(d: Dialect): string {
    if d == Swift then "\"" else "@\""
  }

  function LocalizedPattern(d: Dialect): CallPattern {
    CallPattern("Localized", Quote(d), 2)
  }

  function ExtensionPattern(d: Dialect): CallPattern {
    CallPattern("LocalizedWithKeyExtension", Quote(d), 3)
  }

  function BundlePattern(d: Dialect): CallPattern {
    CallPattern("LocalizedWithBundle", Quote(d), 3)
  }

  function ExtensionBundlePattern(d: Dialect): CallPattern {
    CallPattern("LocalizedWithKeyExtensionAndBundle", Quote(d), 4)
  }

  /** The patterns in the order `find_strings` passes them, each with its expected number
      of captures. */
  function PatternTable(d: Dialect): seq<(CallPattern, nat)> {
    [(LocalizedPattern(d), 2), (ExtensionPattern(d), 3),
     (BundlePattern(d), 3), (ExtensionBundlePattern(d), 4)]
  }

  // ---------------------------------------------------------------------------------------
  // `pattern.findall` for a call pattern, as Python's backtracking matcher runs it

  /** A successful match: the captured groups, the whitespace runs between the literals
      (before the first literal, after each `",` and before the closing parenthesis), and
      the index just past the match. */
  datatype Scan = Scan(captures: seq<string>, spaces: seq<string>, end: nat)

  predicate Blank(s: string) {
    forall i :: 0 <= i < |s| ==> IsSpace(s[i])
  }

  /** The end of the run of whitespace (`\s*`) starting at `i`. */
  function SkipSpace(s: string, i: nat): (j: nat)
    requires i <= |s|
    ensures i <= j <= |s| && (j == |s| || !IsSpace(s[j])) && Blank(s[i..j])
    decreases |s| - i
  {
    if i < |s| && IsSpace(s[i]) then SkipSpace(s, i + 1) else i
  }

  /** Group `k` started at `g` and currently ends at `e`: the lazy `(.*?)` first tries to
      match the rest of the pattern at `e`, and only then grows by one character, never
      across a line break. */
  function MatchGroup(s: string, p: CallPattern, k: nat, g: nat, e: nat): (r: Option<Scan>)
    requires k < p.groups && g <= e <= |s|
    ensures r.Some? ==> |r.value.captures| == p.groups - k && |r.value.spaces| == p.groups - k
    ensures r.Some? ==> e < r.value.end <= |s|
    decreases p.groups - k, |s| - e, 1
  {
    match AfterGroup(s, p, k, e)
    case Some(sc) => Some(Scan([s[g..e]] + sc.captures, sc.spaces, sc.end))
    case None => if e < |s| && s[e] != '\n' then MatchGroup(s, p, k, g, e + 1) else None
  }

  /** The rest of the pattern after group `k`, from index `j`: `"\s*\)` after the last
      group, `",\s*Q` and the next group otherwise. */
  function AfterGroup(s: string, p: CallPattern, k: nat, j: nat): (r: Option<Scan>)
    requires k < p.groups && j <= |s|
    ensures r.Some? ==> |r.value.captures| == p.groups - k - 1 && |r.value.spaces| == p.groups - k
    ensures r.Some? ==> j < r.value.end <= |s|
    decreases p.groups - k, |s| - j, 0
  {
    if k + 1 == p.groups then
      if j < |s| && s[j] == '"' then
        var w := SkipSpace(s, j + 1);
        if w < |s| && s[w] == ')' then Some(Scan([], [s[j + 1..w]], w + 1)) else None
      else None
    else if OccursAt(s, "\",", j) then
      var w := SkipSpace(s, j + 2);
      if OccursAt(s, p.quote, w) then
        var g := w + |p.quote|;
        match MatchGroup(s, p, k + 1, g, g)
        case Some(sc) => Some(Scan(sc.captures, [s[j + 2..w]] + sc.spaces, sc.end))
        case None => None
      else None
    else None
  }

  /** A match of the whole pattern starting exactly at `i`; the first group `(.+?)` takes
      at least one character. */
  function MatchAt(s: string, p: CallPattern, i: nat): (r: Option<Scan>)
    requires i <= |s| && p.groups >= 1
    ensures r.Some? ==> |r.value.captures| == p.groups && |r.value.spaces| == p.groups + 1
    ensures r.Some? ==> i < r.value.end <= |s|
  {
    if !OccursAt(s, p.name + "(", i) then None
    else
      var o := i + |p.name| + 1;
      var w := SkipSpace(s, o);
      if OccursAt(s, p.quote, w) && w + |p.quote| < |s| && s[w + |p.quote|] != '\n' then
        var g := w + |p.quote|;
        match MatchGroup(s, p, 0, g, g + 1)
        case Some(sc) => Some(Scan(sc.captures, [s[o..w]] + sc.spaces, sc.end))
        case None => None
      else None
  }

  /** A match found by `findall`, with the index it starts at. */
  datatype Occurrence = Occurrence(start: nat, scan: Scan)

  /** `findall` from index `i`: the leftmost match, then the search resumes at its end. */
  function Scanned(s: string, p: CallPattern, i: nat): (r: seq<Occurrence>)
    requires i <= |s| && p.groups >= 1
    ensures forall k :: 0 <= k < |r| ==> |r[k].scan.captures| == p.groups
    ensures forall k :: 0 <= k < |r| ==> i <= r[k].start < r[k].scan.end <= |s|
    decreases |s| - i
  {
    if i == |s| then []
    else
      match MatchAt(s, p, i)
      case Some(sc) => [Occurrence(i, sc)] + Scanned(s, p, sc.end)
      case None => Scanned(s, p, i + 1)
  }

  /** `pattern.findall(s)`: the capture tuples of the matches, in text order. */
  function FindAll(s: string, p: CallPattern): (r: seq<seq<string>>)
    requires p.groups >= 1
    ensures forall k :: 0 <= k < |r| ==> |r[k]| == p.groups
  {
    var occ := Scanned(s, p, 0);
    seq(|occ|, k requires 0 <= k < |occ| => occ[k].scan.captures)
  }

  // ---------------------------------------------------------------------------------------
  // What a match looks like

  /** The text after a group: the closing quote, then either `\s*)` or `,\s*Q` and the
      next group. */
  function Rest(q: string, captures: seq<string>, spaces: seq<string>): string
    requires |spaces| == |captures| + 1
    decreases |captures|
  {
    if captures == [] then "\"" + spaces[0] + ")"
    else "\"," + spaces[0] + q + captures[0] + Rest(q, captures[1..], spaces[1..])
  }

  /** The text of a call with the given captures and whitespace runs. */
  function CallText(p: CallPattern, captures: seq<string>, spaces: seq<string>): string
    requires |captures| >= 1 && |spaces| == |captures| + 1
  {
    p.name + "(" + spaces[0] + p.quote + captures[0] + Rest(p.quote, captures[1..], spaces[1..])
  }

  /** Captures never span lines and the runs between literals are whitespace. */
  predicate WellShaped(captures: seq<string>, spaces: seq<string>) {
    && (forall k :: 0 <= k < |captures| ==> '\n' !in captures[k])
    && (forall k :: 0 <= k < |spaces| ==> Blank(spaces[k]))
  }

  lemma {:induction false} MatchGroupSound(s: string, p: CallPattern, k: nat, g: nat, e: nat)
    requires k < p.groups && g <= e <= |s| && '\n' !in s[g..e]
    ensures var r := MatchGroup(s, p, k, g, e);
      r.Some? ==>
        && s[g..r.value.end] == r.value.captures[0] + Rest(p.quote, r.value.captures[1..], r.value.spaces)
        && WellShaped(r.value.captures, r.value.spaces)
        && |r.value.captures[0]| >= e - g
    decreases p.groups - k, |s| - e, 3
  {
    if AfterGroup(s, p, k, e).Some? {
      GroupEndSound(s, p, k, g, e);
    } else if e < |s| && s[e] != '\n' {
      assert s[g..e + 1] == s[g..e] + [s[e]];
      MatchGroupSound(s, p, k, g, e + 1);
    }
  }

  /** The group ends where the rest of the pattern matches. */
  lemma {:induction false} GroupEndSound(s: string, p: CallPattern, k: nat, g: nat, e: nat)
    requires k < p.groups && g <= e <= |s| && '\n' !in s[g..e] && AfterGroup(s, p, k, e).Some?
    ensures var r := MatchGroup(s, p, k, g, e).value;
      && s[g..r.end] == r.captures[0] + Rest(p.quote, r.captures[1..], r.spaces)
      && WellShaped(r.captures, r.spaces)
      && |r.captures[0]| >= e - g
    decreases p.groups - k, |s| - e, 2
  {
    var sc := AfterGroup(s, p, k, e).value;
    AfterGroupSound(s, p, k, e);
    var caps := [s[g..e]] + sc.captures;
    assert MatchGroup(s, p, k, g, e).value == Scan(caps, sc.spaces, sc.end);
    assert caps[0] == s[g..e] && caps[1..] == sc.captures;
    JoinTwo(s, g, e, sc.end);
    WellShapedCapture(s[g..e], sc.captures, sc.spaces);
  }

  lemma JoinTwo(s: string, a: nat, b: nat, c: nat)
    requires a <= b <= c <= |s|
    ensures s[a..c] == s[a..b] + s[b..c]
  {
  }

  lemma WellShapedCapture(c: string, captures: seq<string>, spaces: seq<string>)
    requires WellShaped(captures, spaces) && '\n' !in c
    ensures WellShaped([c] + captures, spaces)
  {
    assert forall k :: 1 <= k < |captures| + 1 ==> ([c] + captures)[k] == captures[k - 1];
  }

  lemma {:induction false} AfterGroupSound(s: string, p: CallPattern, k: nat, j: nat)
    requires k < p.groups && j <= |s|
    ensures var r := AfterGroup(s, p, k, j);
      r.Some? ==>
        && s[j..r.value.end] == Rest(p.quote, r.value.captures, r.value.spaces)
        && WellShaped(r.value.captures, r.value.spaces)
    decreases p.groups - k, |s| - j, 1
  {
    if AfterGroup(s, p, k, j).Some? {
      if k + 1 == p.groups {
        LastGroupSound(s, p, k, j);
      } else {
        MiddleGroupSound(s, p, k, j);
      }
    }
  }

  /** After the last group: the closing quote, a blank run and `)`. */
  lemma LastGroupSound(s: string, p: CallPattern, k: nat, j: nat)
    requires k + 1 == p.groups && j <= |s| && AfterGroup(s, p, k, j).Some?
    ensures var r := AfterGroup(s, p, k, j).value;
      && s[j..r.end] == Rest(p.quote, r.captures, r.spaces)
      && WellShaped(r.captures, r.spaces)
  {
    var w := SkipSpace(s, j + 1);
    assert AfterGroup(s, p, k, j) == Some(Scan([], [s[j + 1..w]], w + 1));
    assert s[j..w + 1] == [s[j]] + s[j + 1..w] + [s[w]];
  }

  /** Before a middle group: `",`, a blank run, the quote and what the next group read. */
  lemma {:induction false} MiddleGroupSound(s: string, p: CallPattern, k: nat, j: nat)
    requires k + 1 < p.groups && j <= |s| && AfterGroup(s, p, k, j).Some?
    ensures var r := AfterGroup(s, p, k, j).value;
      && s[j..r.end] == Rest(p.quote, r.captures, r.spaces)
      && WellShaped(r.captures, r.spaces)
    decreases p.groups - k, |s| - j, 0
  {
    var w := SkipSpace(s, j + 2);
    var g := w + |p.quote|;
    AfterGroupFound(s, p, k, j);
    var r := MatchGroup(s, p, k + 1, g, g);
    MatchGroupSound(s, p, k + 1, g, g);
    var sc := r.value;
    SlicesJoin(s, j, j + 2, w, g, sc.end, "\",", s[j + 2..w], p.quote,
               sc.captures[0] + Rest(p.quote, sc.captures[1..], sc.spaces));
    RestCons(p.quote, sc.captures, s[j + 2..w], sc.spaces);
    WellShapedCons(sc.captures, s[j + 2..w], sc.spaces);
  }

  /** A match of the rest before a middle group means its literal parts were read and the
      next group matched. */
  lemma AfterGroupFound(s: string, p: CallPattern, k: nat, j: nat)
    requires k + 1 < p.groups && j <= |s| && AfterGroup(s, p, k, j).Some?
    ensures OccursAt(s, "\",", j)
    ensures var w := SkipSpace(s, j + 2);
      && OccursAt(s, p.quote, w)
      && var r := MatchGroup(s, p, k + 1, w + |p.quote|, w + |p.quote|);
      && r.Some?
      && AfterGroup(s, p, k, j) == Some(Scan(r.value.captures, [s[j + 2..w]] + r.value.spaces, r.value.end))
  {
  }

  lemma SlicesJoin(s: string, a: nat, b: nat, c: nat, d: nat, e: nat, x: string, y: string, z: string, u: string)
    requires a <= b <= c <= d <= e <= |s|
    requires s[a..b] == x && s[b..c] == y && s[c..d] == z && s[d..e] == u
    ensures s[a..e] == x + y + z + u
  {
    JoinSlices(s, a, b, c, d, e);
  }

  lemma JoinSlices(s: string, a: nat, b: nat, c: nat, d: nat, e: nat)
    requires a <= b <= c <= d <= e <= |s|
    ensures s[a..e] == s[a..b] + s[b..c] + s[c..d] + s[d..e]
  {
    assert s[a..e] == s[a..b] + s[b..e];
    assert s[b..e] == s[b..c] + s[c..e];
    assert s[c..e] == s[c..d] + s[d..e];
  }

  lemma RestCons(q: string, captures: seq<string>, first: string, spaces: seq<string>)
    requires |captures| >= 1 && |spaces| == |captures|
    ensures Rest(q, captures, [first] + spaces)
      == "\"," + first + q + (captures[0] + Rest(q, captures[1..], spaces))
  {
    RestUnfold(q, captures, first, spaces);
    Regroup("\",", first, q, captures[0], Rest(q, captures[1..], spaces));
  }

  lemma RestUnfold(q: string, captures: seq<string>, first: string, spaces: seq<string>)
    requires |captures| >= 1 && |spaces| == |captures|
    ensures Rest(q, captures, [first] + spaces)
      == "\"," + first + q + captures[0] + Rest(q, captures[1..], spaces)
  {
    var all := [first] + spaces;
    assert all[0] == first && all[1..] == spaces;
  }

  lemma Regroup(a: string, b: string, c: string, d: string, e: string)
    ensures a + b + c + d + e == a + b + c + (d + e)
  {
  }

  /** Every match is the text of a call whose first capture is non-empty. */
  lemma MatchAtSound(s: string, p: CallPattern, i: nat)
    requires i <= |s| && p.groups >= 1
    ensures var r := MatchAt(s, p, i);
      r.Some? ==>
        && s[i..r.value.end] == CallText(p, r.value.captures, r.value.spaces)
        && WellShaped(r.value.captures, r.value.spaces)
        && |r.value.captures[0]| >= 1
  {
    if MatchAt(s, p, i).Some? {
      var w, sc := MatchAtFound(s, p, i);
      MatchAtSoundFound(s, p, i, w, sc);
    }
  }

  /** A match at `i` means the literal parts were read and the first group matched. */
  lemma MatchAtFound(s: string, p: CallPattern, i: nat) returns (w: nat, sc: Scan)
    requires i <= |s| && p.groups >= 1 && MatchAt(s, p, i).Some?
    ensures OccursAt(s, p.name + "(", i)
    ensures SkipSpace(s, i + |p.name| + 1) == w && OccursAt(s, p.quote, w)
    ensures w + |p.quote| < |s| && s[w + |p.quote|] != '\n'
    ensures MatchGroup(s, p, 0, w + |p.quote|, w + |p.quote| + 1) == Some(sc)
  {
    w := SkipSpace(s, i + |p.name| + 1);
    sc := MatchGroup(s, p, 0, w + |p.quote|, w + |p.quote| + 1).value;
  }

  /** `MatchAtSound` once the first group has matched. */
  lemma MatchAtSoundFound(s: string, p: CallPattern, i: nat, w: nat, sc: Scan)
    requires i <= |s| && p.groups >= 1 && OccursAt(s, p.name + "(", i)
    requires SkipSpace(s, i + |p.name| + 1) == w && OccursAt(s, p.quote, w)
    requires w + |p.quote| < |s| && s[w + |p.quote|] != '\n'
    requires MatchGroup(s, p, 0, w + |p.quote|, w + |p.quote| + 1) == Some(sc)
    ensures var m := MatchAt(s, p, i);
      && m.Some?
      && s[i..m.value.end] == CallText(p, m.value.captures, m.value.spaces)
      && WellShaped(m.value.captures, m.value.spaces)
      && |m.value.captures[0]| >= 1
  {
    FirstGroupSound(s, p, w + |p.quote|, Some(sc));
    FoundCallText(s, p, i, w, sc);
    MatchAtUnfold(s, p, i, w, sc);
  }

  /** The text a match found at `i` covers is a call, whatever `MatchAt` makes of it. */
  lemma FoundCallText(s: string, p: CallPattern, i: nat, w: nat, sc: Scan)
    requires i <= |s| && OccursAt(s, p.name + "(", i)
    requires SkipSpace(s, i + |p.name| + 1) == w && OccursAt(s, p.quote, w)
    requires w + |p.quote| < sc.end <= |s| && |sc.captures| >= 1 && |sc.spaces| == |sc.captures|
    requires s[w + |p.quote|..sc.end] == sc.captures[0] + Rest(p.quote, sc.captures[1..], sc.spaces)
    requires WellShaped(sc.captures, sc.spaces)
    ensures var spaces := [s[i + |p.name| + 1..w]] + sc.spaces;
      && s[i..sc.end] == CallText(p, sc.captures, spaces)
      && WellShaped(sc.captures, spaces)
  {
    var o := i + |p.name| + 1;
    CallTextAssembled(s, p, i, w, sc.captures, sc.spaces, sc.end);
    WellShapedCons(sc.captures, s[o..w], sc.spaces);
  }

  /** What the first group reads: a non-empty capture on one line and the rest of a call. */
  lemma FirstGroupSound(s: string, p: CallPattern, g: nat, r: Option<Scan>)
    requires p.groups >= 1 && g < |s| && s[g] != '\n'
    requires r == MatchGroup(s, p, 0, g, g + 1) && r.Some?
    ensures s[g..r.value.end] == r.value.captures[0] + Rest(p.quote, r.value.captures[1..], r.value.spaces)
    ensures WellShaped(r.value.captures, r.value.spaces) && |r.value.captures[0]| >= 1
  {
    assert s[g..g + 1] == [s[g]];
    MatchGroupSound(s, p, 0, g, g + 1);
  }

  /** The name, the opening run and quote, then the first capture and the rest make a call. */
  lemma CallTextAssembled(s: string, p: CallPattern, i: nat, w: nat,
                          captures: seq<string>, spaces: seq<string>, end: nat)
    requires OccursAt(s, p.name + "(", i) && i + |p.name| + 1 <= w
    requires OccursAt(s, p.quote, w) && w + |p.quote| <= end <= |s|
    requires |captures| >= 1 && |spaces| == |captures|
    requires s[w + |p.quote|..end] == captures[0] + Rest(p.quote, captures[1..], spaces)
    ensures s[i..end] == CallText(p, captures, [s[i + |p.name| + 1..w]] + spaces)
  {
    var o := i + |p.name| + 1;
    var g := w + |p.quote|;
    var rest := Rest(p.quote, captures[1..], spaces);
    assert s[i..o] == p.name + "(";
    assert s[w..g] == p.quote;
    SlicesJoin(s, i, o, w, g, end, p.name + "(", s[o..w], p.quote, captures[0] + rest);
    Regroup(p.name + "(", s[o..w], p.quote, captures[0], rest);
    var all := [s[o..w]] + spaces;
    assert all[0] == s[o..w] && all[1..] == spaces;
    assert CallText(p, captures, all) == p.name + "(" + s[o..w] + p.quote + captures[0] + rest;
  }

  lemma WellShapedCons(captures: seq<string>, run: string, spaces: seq<string>)
    requires WellShaped(captures, spaces) && Blank(run)
    ensures WellShaped(captures, [run] + spaces)
  {
    assert forall k :: 1 <= k < |spaces| + 1 ==> ([run] + spaces)[k] == spaces[k - 1];
  }
  /** A capture that neither contains a quote nor spans lines: the lazy group stops exactly
      at its end. */
  predicate PlainCapture(c: string) {
    '"' !in c && '\n' !in c
  }

  /** The captures and runs a call can be written with so that the pattern reads them back. */
  predicate Readable(p: CallPattern, captures: seq<string>, spaces: seq<string>) {
    && |p.quote| >= 1 && !IsSpace(p.quote[0])
    && p.groups == |captures| >= 1 && |spaces| == |captures| + 1
    && |captures[0]| >= 1
    && (forall k :: 0 <= k < |captures| ==> PlainCapture(captures[k]))
    && (forall k :: 0 <= k < |spaces| ==> Blank(spaces[k]))
  }

  lemma OccursSplit(s: string, a: string, b: string, j: nat)
    requires OccursAt(s, a + b, j)
    ensures OccursAt(s, a, j) && OccursAt(s, b, j + |a|)
  {
    assert s[j..j + |a|] == s[j..j + |a + b|][..|a|];
    assert s[j + |a|..j + |a| + |b|] == s[j..j + |a + b|][|a|..];
  }

  lemma {:induction false} SkipSpaceRun(s: string, i: nat, n: nat)
    requires i + n < |s| && Blank(s[i..i + n]) && !IsSpace(s[i + n])
    ensures SkipSpace(s, i) == i + n
    decreases n
  {
    if n > 0 {
      assert s[i] == s[i..i + n][0];
      assert s[i + 1..i + n] == s[i..i + n][1..];
      SkipSpaceRun(s, i + 1, n - 1);
    }
  }

  /** The lazy group reads back a plain capture followed by the rest of a call. */
  lemma {:induction false} MatchGroupComplete(s: string, p: CallPattern, k: nat, g: nat, e: nat,
                                              c: string, captures: seq<string>, spaces: seq<string>, end: nat)
    requires k < p.groups && |captures| == p.groups - k - 1 && |spaces| == |captures| + 1
    requires |p.quote| >= 1 && !IsSpace(p.quote[0])
    requires PlainCapture(c) && (forall i :: 0 <= i < |captures| ==> PlainCapture(captures[i]))
    requires forall i :: 0 <= i < |spaces| ==> Blank(spaces[i])
    requires g <= e <= g + |c| && OccursAt(s, c + Rest(p.quote, captures, spaces), g)
    requires end == g + |c| + |Rest(p.quote, captures, spaces)|
    ensures MatchGroup(s, p, k, g, e) == Some(Scan([c] + captures, spaces, end))
    decreases p.groups - k, |s| - e, 3
  {
    OccursSplit(s, c, Rest(p.quote, captures, spaces), g);
    AfterGroupComplete(s, p, k, g + |c|, captures, spaces, end);
    MatchGroupEnds(s, p, k, g, e, c, captures, spaces, end);
  }

  /** The lazy group started at `g` ends after a plain capture `c` where the rest of the
      pattern matches. */
  lemma MatchGroupEnds(s: string, p: CallPattern, k: nat, g: nat, e: nat, c: string,
                       captures: seq<string>, spaces: seq<string>, end: nat)
    requires k < p.groups && PlainCapture(c) && OccursAt(s, c, g) && g <= e <= g + |c|
    requires AfterGroup(s, p, k, g + |c|) == Some(Scan(captures, spaces, end))
    ensures MatchGroup(s, p, k, g, e) == Some(Scan([c] + captures, spaces, end))
  {
    MatchGroupSkips(s, p, k, g, e, c);
    MatchGroupStops(s, p, k, g, c, captures, spaces, end);
  }

  /** Across a plain capture the lazy group only grows: it ends where the capture does. */
  lemma {:induction false} MatchGroupSkips(s: string, p: CallPattern, k: nat, g: nat, e: nat, c: string)
    requires k < p.groups && PlainCapture(c) && OccursAt(s, c, g) && g <= e <= g + |c|
    ensures MatchGroup(s, p, k, g, e) == MatchGroup(s, p, k, g, g + |c|)
    decreases g + |c| - e
  {
    if e < g + |c| {
      InsideCapture(s, p, k, g, e, c);
      MatchGroupGrows(s, p, k, g, e);
      MatchGroupSkips(s, p, k, g, e + 1, c);
    }
  }

  /** Where the rest of the pattern does not match, the lazy group takes one more character. */
  lemma MatchGroupGrows(s: string, p: CallPattern, k: nat, g: nat, e: nat)
    requires k < p.groups && g <= e < |s| && s[e] != '\n' && AfterGroup(s, p, k, e) == None
    ensures MatchGroup(s, p, k, g, e) == MatchGroup(s, p, k, g, e + 1)
  {
  }

  /** Where the rest of the pattern matches, the lazy group ends. */
  lemma MatchGroupStops(s: string, p: CallPattern, k: nat, g: nat, c: string,
                        captures: seq<string>, spaces: seq<string>, end: nat)
    requires k < p.groups && OccursAt(s, c, g)
    requires AfterGroup(s, p, k, g + |c|) == Some(Scan(captures, spaces, end))
    ensures MatchGroup(s, p, k, g, g + |c|) == Some(Scan([c] + captures, spaces, end))
  {
  }

  /** Inside a plain capture the rest of the pattern cannot match, and the group grows. */
  lemma InsideCapture(s: string, p: CallPattern, k: nat, g: nat, e: nat, c: string)
    requires k < p.groups && g <= e < g + |c| && PlainCapture(c) && OccursAt(s, c, g)
    ensures e < |s| && s[e] != '\n' && AfterGroup(s, p, k, e) == None
  {
    assert s[e] == s[g..g + |c|][e - g] == c[e - g];
    assert s[e] != '"' && s[e] != '\n';
    assert !OccursAt(s, "\",", e) by {
      if e + 2 <= |s| {
        assert s[e..e + 2][0] == s[e];
      }
    }
  }

  /** The rest of the pattern reads back the rest of a call. */
  lemma {:induction false} AfterGroupComplete(s: string, p: CallPattern, k: nat, j: nat,
                                              captures: seq<string>, spaces: seq<string>, end: nat)
    requires k < p.groups && |captures| == p.groups - k - 1 && |spaces| == |captures| + 1
    requires |p.quote| >= 1 && !IsSpace(p.quote[0])
    requires forall i :: 0 <= i < |captures| ==> PlainCapture(captures[i])
    requires forall i :: 0 <= i < |spaces| ==> Blank(spaces[i])
    requires OccursAt(s, Rest(p.quote, captures, spaces), j)
    requires end == j + |Rest(p.quote, captures, spaces)|
    ensures AfterGroup(s, p, k, j) == Some(Scan(captures, spaces, end))
    decreases p.groups - k, |s| - j, 2
  {
    if captures == [] {
      assert Rest(p.quote, captures, spaces) == "\"" + spaces[0] + ")";
      LastGroupComplete(s, p, k, j, spaces[0]);
      assert spaces == [spaces[0]];
    } else {
      MiddleGroupComplete(s, p, k, j, captures, spaces, end);
    }
  }

  /** The rest of the pattern before a middle group: `",`, a blank run, the quote, and the
      next group read back by the lazy group. */
  lemma {:induction false} MiddleGroupComplete(s: string, p: CallPattern, k: nat, j: nat,
                                               captures: seq<string>, spaces: seq<string>, end: nat)
    requires k < p.groups && |captures| == p.groups - k - 1 && |spaces| == |captures| + 1
    requires |captures| >= 1 && |p.quote| >= 1 && !IsSpace(p.quote[0])
    requires forall i :: 0 <= i < |captures| ==> PlainCapture(captures[i])
    requires forall i :: 0 <= i < |spaces| ==> Blank(spaces[i])
    requires OccursAt(s, Rest(p.quote, captures, spaces), j)
    requires end == j + |Rest(p.quote, captures, spaces)|
    ensures AfterGroup(s, p, k, j) == Some(Scan(captures, spaces, end))
    decreases p.groups - k, |s| - j, 1
  {
    MiddleLiterals(s, j, p.quote, captures, spaces);
    AfterGroupMiddle(s, p, k, j, j + 2 + |spaces[0]|, captures, spaces);
  }

  /** Where the literal parts before a middle group lie in the text. */
  lemma MiddleLiterals(s: string, j: nat, q: string, captures: seq<string>, spaces: seq<string>)
    requires |captures| >= 1 && |spaces| == |captures| + 1 && Blank(spaces[0])
    requires |q| >= 1 && !IsSpace(q[0])
    requires OccursAt(s, Rest(q, captures, spaces), j)
    ensures var w := j + 2 + |spaces[0]|;
      && OccursAt(s, "\",", j) && SkipSpace(s, j + 2) == w && s[j + 2..w] == spaces[0]
      && OccursAt(s, q, w) && OccursAt(s, captures[0] + Rest(q, captures[1..], spaces[1..]), w + |q|)
      && j + |Rest(q, captures, spaces)| == w + |q| + |captures[0]| + |Rest(q, captures[1..], spaces[1..])|
  {
    RestSplit(q, captures, spaces);
    ClosingQuoteAt(s, j, spaces[0], q, captures[0] + Rest(q, captures[1..], spaces[1..]));
  }

  lemma RestSplit(q: string, captures: seq<string>, spaces: seq<string>)
    requires |captures| >= 1 && |spaces| == |captures| + 1
    ensures Rest(q, captures, spaces)
      == "\"," + spaces[0] + q + (captures[0] + Rest(q, captures[1..], spaces[1..]))
    ensures |Rest(q, captures, spaces)|
      == 2 + |spaces[0]| + |q| + |captures[0]| + |Rest(q, captures[1..], spaces[1..])|
  {
    Regroup("\",", spaces[0], q, captures[0], Rest(q, captures[1..], spaces[1..]));
  }

  /** `AfterGroup` before a middle group, once the literal parts have been read: the next
      group reads back the rest. */
  lemma {:induction false} AfterGroupMiddle(s: string, p: CallPattern, k: nat, j: nat, w: nat,
                                            captures: seq<string>, spaces: seq<string>)
    requires k + 1 < p.groups && |captures| == p.groups - k - 1 && |spaces| == |captures| + 1
    requires |p.quote| >= 1 && !IsSpace(p.quote[0])
    requires forall i :: 0 <= i < |captures| ==> PlainCapture(captures[i])
    requires forall i :: 0 <= i < |spaces| ==> Blank(spaces[i])
    requires j <= |s| && OccursAt(s, "\",", j)
    requires SkipSpace(s, j + 2) == w && s[j + 2..w] == spaces[0] && OccursAt(s, p.quote, w)
    requires OccursAt(s, captures[0] + Rest(p.quote, captures[1..], spaces[1..]), w + |p.quote|)
    ensures AfterGroup(s, p, k, j)
      == Some(Scan(captures, spaces, w + |p.quote| + |captures[0]| + |Rest(p.quote, captures[1..], spaces[1..])|))
    decreases p.groups - k, |s| - j, 0
  {
    var g := w + |p.quote|;
    var rest := Rest(p.quote, captures[1..], spaces[1..]);
    MatchGroupComplete(s, p, k + 1, g, g, captures[0], captures[1..], spaces[1..], g + |captures[0]| + |rest|);
    AfterGroupOpens(s, p, k, j, w, Scan([captures[0]] + captures[1..], spaces[1..], g + |captures[0]| + |rest|));
    HeadTail(captures[0], captures);
    HeadTail(spaces[0], spaces);
  }

  /** Before a middle group, `",`, a blank run and the opening quote lead into the next group. */
  lemma AfterGroupOpens(s: string, p: CallPattern, k: nat, j: nat, w: nat, sc: Scan)
    requires k + 1 < p.groups && j <= |s| && OccursAt(s, "\",", j)
    requires SkipSpace(s, j + 2) == w && OccursAt(s, p.quote, w)
    requires MatchGroup(s, p, k + 1, w + |p.quote|, w + |p.quote|) == Some(sc)
    ensures AfterGroup(s, p, k, j) == Some(Scan(sc.captures, [s[j + 2..w]] + sc.spaces, sc.end))
  {
  }

  /** `",`, a blank run and the opening quote of the next literal, read at `j`. */
  lemma ClosingQuoteAt(s: string, j: nat, run: string, q: string, more: string)
    requires Blank(run) && |q| >= 1 && !IsSpace(q[0])
    requires OccursAt(s, "\"," + run + q + more, j)
    ensures OccursAt(s, "\",", j)
    ensures SkipSpace(s, j + 2) == j + 2 + |run|
    ensures s[j + 2..j + 2 + |run|] == run
    ensures OccursAt(s, q, j + 2 + |run|)
    ensures OccursAt(s, more, j + 2 + |run| + |q|)
  {
    OccursSplit(s, "\"," + run + q, more, j);
    OccursSplit(s, "\"," + run, q, j);
    OccursSplit(s, "\",", run, j);
    var w := j + 2 + |run|;
    assert s[w] == s[w..w + |q|][0];
    SkipSpaceRun(s, j + 2, |run|);
  }

  lemma LastGroupComplete(s: string, p: CallPattern, k: nat, j: nat, run: string)
    requires k + 1 == p.groups && Blank(run)
    requires OccursAt(s, "\"" + run + ")", j)
    ensures AfterGroup(s, p, k, j) == Some(Scan([], [run], j + |run| + 2))
  {
    OccursSplit(s, "\"" + run, ")", j);
    OccursSplit(s, "\"", run, j);
    SkipSpaceRun(s, j + 1, |run|);
    assert s[j] == s[j..j + 1][0];
    assert s[j + 1 + |run|] == s[j + 1 + |run|..j + 2 + |run|][0];
  }

  /** The pattern reads back every call written with plain captures: the round trip from
      a call's parts to its text and back. */
  lemma MatchAtComplete(s: string, p: CallPattern, i: nat, captures: seq<string>, spaces: seq<string>)
    requires Readable(p, captures, spaces) && OccursAt(s, CallText(p, captures, spaces), i)
    ensures MatchAt(s, p, i) == Some(Scan(captures, spaces, i + |CallText(p, captures, spaces)|))
  {
    CallTextParts(s, p, i, captures, spaces);
    MatchAtFirst(s, p, i, i + |p.name| + 1 + |spaces[0]|, captures, spaces);
  }

  /** Where the literal parts of a call's text lie. */
  lemma CallTextParts(s: string, p: CallPattern, i: nat, captures: seq<string>, spaces: seq<string>)
    requires |captures| >= 1 && |spaces| == |captures| + 1 && Blank(spaces[0])
    requires |p.quote| >= 1 && !IsSpace(p.quote[0])
    requires OccursAt(s, CallText(p, captures, spaces), i)
    ensures var o := i + |p.name| + 1;
      var w := o + |spaces[0]|;
      var g := w + |p.quote|;
      var rest := Rest(p.quote, captures[1..], spaces[1..]);
      && OccursAt(s, p.name + "(", i) && SkipSpace(s, o) == w && s[o..w] == spaces[0]
      && OccursAt(s, p.quote, w) && OccursAt(s, captures[0] + rest, g)
      && i + |CallText(p, captures, spaces)| == g + |captures[0]| + |rest|
  {
    CallPartsAt(s, i, p.name, spaces[0], p.quote, captures[0], Rest(p.quote, captures[1..], spaces[1..]));
  }

  /** `CallTextParts` for any text of the same shape. */
  lemma CallPartsAt(s: string, i: nat, name: string, run: string, q: string, c: string, rest: string)
    requires Blank(run) && |q| >= 1 && !IsSpace(q[0])
    requires OccursAt(s, name + "(" + run + q + c + rest, i)
    ensures var o := i + |name| + 1;
      var w := o + |run|;
      var g := w + |q|;
      && OccursAt(s, name + "(", i) && SkipSpace(s, o) == w && s[o..w] == run
      && OccursAt(s, q, w) && OccursAt(s, c + rest, g)
      && i + |name + "(" + run + q + c + rest| == g + |c| + |rest|
  {
    assert OccursAt(s, name + "(" + run + q + (c + rest), i) by {
      Regroup(name + "(", run, q, c, rest);
    }
    OpeningAt(s, i, name, run, q, c + rest);
  }

  /** The first character of a non-empty text found at `g`. */
  lemma FirstCharAt(s: string, c: string, rest: string, g: nat)
    requires |c| >= 1 && OccursAt(s, c + rest, g)
    ensures g < |s| && s[g] == c[0]
  {
    assert s[g] == s[g..g + |c + rest|][0];
  }

  /** `MatchAt` once the literal parts have been read: the first group reads back the rest. */
  lemma MatchAtFirst(s: string, p: CallPattern, i: nat, w: nat, captures: seq<string>, spaces: seq<string>)
    requires Readable(p, captures, spaces) && i <= |s| && OccursAt(s, p.name + "(", i)
    requires SkipSpace(s, i + |p.name| + 1) == w && s[i + |p.name| + 1..w] == spaces[0]
    requires OccursAt(s, p.quote, w)
    requires OccursAt(s, captures[0] + Rest(p.quote, captures[1..], spaces[1..]), w + |p.quote|)
    ensures MatchAt(s, p, i)
      == Some(Scan(captures, spaces, w + |p.quote| + |captures[0]| + |Rest(p.quote, captures[1..], spaces[1..])|))
  {
    var g := w + |p.quote|;
    var sc := Scan(captures, spaces[1..], g + |captures[0]| + |Rest(p.quote, captures[1..], spaces[1..])|);
    FirstGroupComplete(s, p, g, captures, spaces);
    assert MatchGroup(s, p, 0, g, g + 1) == Some(sc);
    MatchAtFromGroup(s, p, i, w, spaces, sc);
  }

  /** The first group reads back the first capture and the rest of the call. */
  lemma FirstGroupComplete(s: string, p: CallPattern, g: nat, captures: seq<string>, spaces: seq<string>)
    requires Readable(p, captures, spaces)
    requires OccursAt(s, captures[0] + Rest(p.quote, captures[1..], spaces[1..]), g)
    ensures g < |s| && s[g] != '\n'
    ensures MatchGroup(s, p, 0, g, g + 1)
      == Some(Scan(captures, spaces[1..], g + |captures[0]| + |Rest(p.quote, captures[1..], spaces[1..])|))
  {
    FirstCharAt(s, captures[0], Rest(p.quote, captures[1..], spaces[1..]), g);
    MatchGroupComplete(s, p, 0, g, g + 1, captures[0], captures[1..], spaces[1..],
                       g + |captures[0]| + |Rest(p.quote, captures[1..], spaces[1..])|);
    HeadTail(captures[0], captures);
  }

  /** `MatchAt` from what the first group read, with the leading blank run restored. */
  lemma MatchAtFromGroup(s: string, p: CallPattern, i: nat, w: nat, spaces: seq<string>, sc: Scan)
    requires i <= |s| && p.groups >= 1 && OccursAt(s, p.name + "(", i)
    requires SkipSpace(s, i + |p.name| + 1) == w && OccursAt(s, p.quote, w)
    requires w + |p.quote| < |s| && s[w + |p.quote|] != '\n'
    requires MatchGroup(s, p, 0, w + |p.quote|, w + |p.quote| + 1) == Some(sc)
    requires |spaces| >= 1 && s[i + |p.name| + 1..w] == spaces[0] && sc.spaces == spaces[1..]
    ensures MatchAt(s, p, i) == Some(Scan(sc.captures, spaces, sc.end))
  {
    MatchAtUnfold(s, p, i, w, sc);
    HeadTail(spaces[0], spaces);
  }

  /** One step of `MatchAt` once the literal parts have been read. */
  lemma MatchAtUnfold(s: string, p: CallPattern, i: nat, w: nat, sc: Scan)
    requires i <= |s| && p.groups >= 1 && OccursAt(s, p.name + "(", i)
    requires SkipSpace(s, i + |p.name| + 1) == w && OccursAt(s, p.quote, w)
    requires w + |p.quote| < |s| && s[w + |p.quote|] != '\n'
    requires MatchGroup(s, p, 0, w + |p.quote|, w + |p.quote| + 1) == Some(sc)
    ensures MatchAt(s, p, i) == Some(Scan(sc.captures, [s[i + |p.name| + 1..w]] + sc.spaces, sc.end))
  {
  }

  lemma HeadTail<T>(x: T, s: seq<T>)
    requires |s| >= 1 && s[0] == x
    ensures [x] + s[1..] == s
  {
  }

  /** `Name(`, a blank run and the opening quote of the first literal, read at `i`. */
  lemma OpeningAt(s: string, i: nat, name: string, run: string, q: string, more: string)
    requires Blank(run) && |q| >= 1 && !IsSpace(q[0])
    requires OccursAt(s, name + "(" + run + q + more, i)
    ensures OccursAt(s, name + "(", i)
    ensures SkipSpace(s, i + |name| + 1) == i + |name| + 1 + |run|
    ensures s[i + |name| + 1..i + |name| + 1 + |run|] == run
    ensures OccursAt(s, q, i + |name| + 1 + |run|)
    ensures OccursAt(s, more, i + |name| + 1 + |run| + |q|)
  {
    OccursSplit(s, name + "(" + run + q, more, i);
    OccursSplit(s, name + "(" + run, q, i);
    OccursSplit(s, name + "(", run, i);
    var w := i + |name| + 1 + |run|;
    assert s[w] == s[w..w + |q|][0];
    SkipSpaceRun(s, i + |name| + 1, |run|);
  }

  /** `findall` over the text of one call yields exactly that call's captures. */
  lemma FindAllCallText(p: CallPattern, captures: seq<string>, spaces: seq<string>)
    requires Readable(p, captures, spaces)
    ensures FindAll(CallText(p, captures, spaces), p) == [captures]
  {
    var t := CallText(p, captures, spaces);
    assert OccursAt(t, t, 0) by { assert t[0..|t|] == t; }
    MatchAtComplete(t, p, 0, captures, spaces);
    assert Scanned(t, p, 0) == [Occurrence(0, Scan(captures, spaces, |t|))];
  }

  // ---------------------------------------------------------------------------------------
  // The validation pass: `(.*Localized(?:WithKeyExtension)?\([\s\n]*[^"@\n\r ].*)`
  // (detection.py:17-19, 88-99)

  /** The index of the line break ending the line that holds `i`, or the length of `s`. */
  function LineEnd(s: string, i: nat): (e: nat)
    requires i <= |s|
    ensures i <= e <= |s| && (e == |s| || s[e] == '\n')
    ensures forall k :: i <= k < e ==> s[k] != '\n'
    decreases |s| - i
  {
    if i == |s| || s[i] == '\n' then i else LineEnd(s, i + 1)
  }

  /** `[^"@\n\r ]`: a character that cannot start a string-literal argument. */
  predicate BadArgChar(c: char) {
    c != '"' && c != '@' && c != '\n' && c != '\r' && c != ' '
  }

  /** The index just past `Localized(` or `LocalizedWithKeyExtension(` at `k`: the optional
      group is greedy, so the longer name is tried first. */
  function CallOpenEnd(s: string, k: nat): (r: Option<nat>)
    ensures r.Some? ==> k < r.value <= |s|
  {
    if OccursAt(s, "LocalizedWithKeyExtension(", k) then Some(k + |"LocalizedWithKeyExtension("|)
    else if OccursAt(s, "Localized(", k) then Some(k + |"Localized("|)
    else None
  }

  /** `[\s\n]*[^"@\n\r ]` after the parenthesis at `j`: the greedy run of whitespace gives
      characters back one at a time, so the last position in `j..q` holding a character
      outside `"@\n\r ` is taken. */
  function LastBadArg(s: string, j: nat, q: nat): (r: Option<nat>)
    requires j <= q <= |s|
    ensures r.Some? ==> j <= r.value <= q && r.value < |s| && BadArgChar(s[r.value])
    ensures r.None? ==> forall x :: j <= x <= q && x < |s| ==> !BadArgChar(s[x])
    ensures r.Some? ==> forall x :: r.value < x <= q && x < |s| ==> !BadArgChar(s[x])
    decreases q - j
  {
    if q < |s| && BadArgChar(s[q]) then Some(q)
    else if q == j then None
    else LastBadArg(s, j, q - 1)
  }

  /** The text holds a call the validation pass rejects: `Localized(` or
      `LocalizedWithKeyExtension(` at `k`, then nothing but whitespace up to `x`, where a
      character stands that cannot start a string literal. */
  predicate BadCallAt(s: string, k: nat, x: nat) {
    && CallOpenEnd(s, k).Some?
    && CallOpenEnd(s, k).value <= x <= SkipSpace(s, CallOpenEnd(s, k).value)
    && x < |s| && BadArgChar(s[x])
  }

  /** Whether the invalid-call pattern, once its `.*` has reached `k`, matches there: the
      last character after the opening and its whitespace that cannot start a literal, since
      the `[\s\n]*` in front of it backtracks to give that character back. */
  function RejectedArg(s: string, k: nat): (r: Option<nat>)
    requires k <= |s|
    ensures r.Some? ==> BadCallAt(s, k, r.value)
    ensures r.None? ==> forall x: nat :: !BadCallAt(s, k, x)
  {
    match CallOpenEnd(s, k)
    case Some(j) => LastBadArg(s, j, SkipSpace(s, j))
    case None => None
  }

  /** A match of the invalid-call pattern starting at `p`, with the greedy `.*` in front
      ending at `k` or earlier: the index just past the match. */
  function InvalidCallFrom(s: string, p: nat, k: nat): (r: Option<nat>)
    requires p <= k <= |s|
    ensures r.Some? ==> p < r.value <= |s|
    decreases k - p
  {
    var hit := RejectedArg(s, k);
    if hit.Some? then Some(LineEnd(s, hit.value + 1))
    else if k == p then None
    else InvalidCallFrom(s, p, k - 1)
  }

  /** A match found from `p` comes from a rejected call opening at `c` between `p` and `k`,
      and runs to the end of the line that holds the offending character `x`. */
  lemma {:induction false} InvalidCallFound(s: string, p: nat, k: nat) returns (c: nat, x: nat)
    requires p <= k <= |s| && InvalidCallFrom(s, p, k).Some?
    ensures p <= c <= k && BadCallAt(s, c, x)
    ensures InvalidCallFrom(s, p, k) == Some(LineEnd(s, x + 1))
    decreases k - p
  {
    var hit := RejectedArg(s, k);
    if hit.Some? {
      return k, hit.value;
    }
    c, x := InvalidCallFound(s, p, k - 1);
  }

  /** No match from `p` means no rejected call opens between `p` and `k`. */
  lemma {:induction false} InvalidCallMissed(s: string, p: nat, k: nat)
    requires p <= k <= |s| && InvalidCallFrom(s, p, k).None?
    ensures forall c: nat, x: nat :: p <= c <= k ==> !BadCallAt(s, c, x)
    decreases k - p
  {
    if k > p {
      InvalidCallMissed(s, p, k - 1);
    }
  }

  /** `_INVALID_CALL_PATTERN.findall(s)` from index `i`: the whole text of each match. */
  function FindAllInvalid(s: string, i: nat): (r: seq<string>)
    requires i <= |s|
    ensures forall n :: 0 <= n < |r| ==> Contains(r[n], "Localized")
    decreases |s| - i
  {
    if i == |s| then []
    else
      match InvalidCallFrom(s, i, LineEnd(s, i))
      case Some(e) =>
        InvalidMatchMentions(s, i, e);
        [s[i..e]] + FindAllInvalid(s, e)
      case None => FindAllInvalid(s, i + 1)
  }

  /** A match of the invalid-call pattern holds the word `Localized`. */
  lemma InvalidMatchMentions(s: string, i: nat, e: nat)
    requires i < |s| && InvalidCallFrom(s, i, LineEnd(s, i)) == Some(e)
    ensures i <= e <= |s| && Contains(s[i..e], "Localized")
  {
    var c, x := InvalidCallFound(s, i, LineEnd(s, i));
    OpeningNamesLocalized(s, c);
    MentionsInside(s, i, e, c, x);
  }

  /** A call opening starts with the word `Localized`. */
  lemma OpeningNamesLocalized(s: string, c: nat)
    requires CallOpenEnd(s, c).Some?
    ensures OccursAt(s, "Localized", c) && c + 9 < CallOpenEnd(s, c).value
  {
    if OccursAt(s, "LocalizedWithKeyExtension(", c) {
      assert s[c..c + 9] == s[c..c + 26][..9];
    } else {
      assert s[c..c + 9] == s[c..c + 10][..9];
    }
  }

  lemma MentionsInside(s: string, i: nat, e: nat, c: nat, x: nat)
    requires i <= c && c + 9 <= x < e <= |s| && OccursAt(s, "Localized", c)
    ensures Contains(s[i..e], "Localized")
  {
    var m := s[i..e];
    var a, b := m[c - i..c - i + 9], s[c..c + 9];
    forall t | 0 <= t < 9 ensures a[t] == b[t] {
      assert m[c - i + t] == s[c + t];
    }
    assert a == b;
    assert OccursAt(m, "Localized", c - i);
  }

  /** The validation pass finds something from `i` on exactly when a rejected call opens at
      `i` or later. */
  lemma {:induction false} FindAllInvalidMeaning(s: string, i: nat)
    requires i <= |s|
    ensures FindAllInvalid(s, i) != [] <==> exists c: nat, x: nat :: i <= c && BadCallAt(s, c, x)
    decreases |s| - i
  {
    if i < |s| {
      FindAllInvalidMeaning(s, i + 1);
      var found := InvalidCallFrom(s, i, LineEnd(s, i));
      if found.Some? {
        var c, x := InvalidCallFound(s, i, LineEnd(s, i));
      } else {
        InvalidCallMissed(s, i, LineEnd(s, i));
        forall c: nat, x: nat | i <= c && BadCallAt(s, c, x) ensures i + 1 <= c {
        }
      }
    }
  }

  /** `[match.strip() for match in matches]` */
  function StripAll(ms: seq<string>): (r: seq<string>)
    ensures |r| == |ms| && forall i :: 0 <= i < |ms| ==> r[i] == Strip(ms[i])
  {
    seq(|ms|, i requires 0 <= i < |ms| => Strip(ms[i]))
  }

  /** `[match for match in matches if not match.startswith("func ")]`: redefinitions of the
      functions themselves are not calls. */
  function DropDefinitions(ms: seq<string>): (r: seq<string>)
    ensures forall m :: m in r <==> m in ms && !StartsWith(m, "func ")
    ensures |r| <= |ms|
  {
    if ms == [] then []
    else if StartsWith(ms[0], "func ") then DropDefinitions(ms[1..])
    else [ms[0]] + DropDefinitions(ms[1..])
  }

  /** The calls the validation pass reports, stripped and without redefinitions. */
  function OffendingCalls(s: string): (r: seq<string>)
    ensures forall m :: m in r ==> !StartsWith(m, "func ")
    ensures forall m :: m in r <==> m in StripAll(FindAllInvalid(s, 0)) && !StartsWith(m, "func ")
  {
    DropDefinitions(StripAll(FindAllInvalid(s, 0)))
  }

  /** With no call opening after `p` up to `k`, the search from `k` comes down to the
      opening at `p`. */
  lemma {:induction false} InvalidCallOnlyAt(s: string, p: nat, k: nat)
    requires p <= k <= |s|
    requires forall c :: p < c <= k ==> CallOpenEnd(s, c).None?
    ensures InvalidCallFrom(s, p, k) == InvalidCallFrom(s, p, p)
    decreases k - p
  {
    if k > p {
      InvalidCallOnlyAt(s, p, k - 1);
    }
  }

  /** A call opening starts with `L`. */
  lemma OpeningStartsWithL(s: string, c: nat)
    requires CallOpenEnd(s, c).Some?
    ensures c < |s| && s[c] == 'L'
  {
    OpeningNamesLocalized(s, c);
    assert s[c..c + 9][0] == 'L';
  }

  /** A text whose only `L` is at `c0` has no call opening anywhere else. */
  lemma SingleOpening(s: string, c0: nat)
    requires forall c :: 0 <= c < |s| && c != c0 ==> s[c] != 'L'
    ensures forall c: nat :: c != c0 ==> CallOpenEnd(s, c).None?
  {
    forall c: nat | c != c0 ensures CallOpenEnd(s, c).None? {
      if CallOpenEnd(s, c).Some? {
        OpeningStartsWithL(s, c);
      }
    }
  }

  /** The validation pass matches a whole text that starts with its only call opening and
      has a rejected argument at `x` with no line break after it. */
  lemma InvalidWhole(s: string, x: nat)
    requires forall c :: 0 < c < |s| ==> s[c] != 'L'
    requires CallOpenEnd(s, 0).Some?
    requires LastBadArg(s, CallOpenEnd(s, 0).value, SkipSpace(s, CallOpenEnd(s, 0).value)) == Some(x)
    requires forall c :: x < c < |s| ==> s[c] != '\n'
    ensures FindAllInvalid(s, 0) == [s]
  {
    SingleOpening(s, 0);
    InvalidCallOnlyAt(s, 0, LineEnd(s, 0));
    assert LineEnd(s, x + 1) == |s|;
    assert InvalidCallFrom(s, 0, 0) == Some(|s|);
    assert s[0..|s|] == s;
  }

  /** A single match that starts and ends with no whitespace, and is not a definition, is
      reported as it is. */
  lemma ReportedAsIs(s: string)
    requires FindAllInvalid(s, 0) == [s]
    requires |s| > 0 && !IsSpace(s[0]) && !IsSpace(s[|s| - 1]) && s[0] != 'f'
    ensures OffendingCalls(s) == [s]
  {
    StripUnpadded(s);
    StripOne(s);
    assert !StartsWith(s, "func ");
    KeptCall(s);
  }

  /** A text with no whitespace at either end is its own `strip()`. */
  lemma StripUnpadded(s: string)
    requires |s| > 0 && !IsSpace(s[0]) && !IsSpace(s[|s| - 1])
    ensures Strip(s) == s
  {
    var k := |s| - |StripLeft(s)|;
    var r := Strip(s);
    assert k == 0;
    assert |r| == |s|;
  }

  /** Stripping a single match that is already stripped leaves it as it is. */
  lemma StripOne(s: string)
    requires Strip(s) == s
    ensures StripAll([s]) == [s]
  {
  }

  /** A single match that is not a definition is kept. */
  lemma KeptCall(m: string)
    requires !StartsWith(m, "func ")
    ensures DropDefinitions([m]) == [m]
  {
    assert [m][1..] == [];
  }

  /** The validation pass reports nothing for a text whose only call opening, at `c0`, is
      followed by whitespace and then only characters that can start a literal. */
  lemma NothingReported(s: string, c0: nat)
    requires forall c :: 0 <= c < |s| && c != c0 ==> s[c] != 'L'
    requires CallOpenEnd(s, c0).Some?
    requires LastBadArg(s, CallOpenEnd(s, c0).value, SkipSpace(s, CallOpenEnd(s, c0).value)).None?
    ensures OffendingCalls(s) == []
  {
    SingleOpening(s, c0);
    FindAllInvalidMeaning(s, 0);
    assert FindAllInvalid(s, 0) == [];
  }

  /** `Localized(` at `c`: the opening ends just after it. */
  lemma PlainOpening(s: string, c: nat)
    requires c + 10 <= |s| && s[c..c + 10] == "Localized("
    ensures CallOpenEnd(s, c) == Some(c + 10)
  {
    assert OccursAt(s, "Localized(", c);
    assert s[c + 9] == '(';
  }

  /** `Localized(` opening the text with, right after the parenthesis, a character that is
      neither whitespace nor able to start a literal: the whole text is reported. */
  lemma BadArgumentReported(s: string)
    requires |s| > 10 && s[..10] == "Localized(" && !IsSpace(s[10]) && BadArgChar(s[10])
    requires forall c :: 0 < c < |s| ==> s[c] != 'L' && s[c] != '\n'
    requires !IsSpace(s[|s| - 1])
    ensures OffendingCalls(s) == [s]
  {
    PlainOpening(s, 0);
    assert SkipSpace(s, 10) == 10;
    assert LastBadArg(s, 10, 10) == Some(10);
    InvalidWhole(s, 10);
    ReportedAsIs(s);
  }

  /** `Localized(`, a line break, a tab and a literal: the tab is the rejected argument and
      the whole text is reported. */
  lemma TabArgumentReported(s: string)
    requires |s| > 12 && s[..10] == "Localized(" && s[10] == '\n' && s[11] == '\t' && s[12] == '"'
    requires forall c :: 0 < c < |s| ==> s[c] != 'L'
    requires forall c :: 11 < c < |s| ==> s[c] != '\n'
    requires !IsSpace(s[|s| - 1])
    ensures OffendingCalls(s) == [s]
  {
    PlainOpening(s, 0);
    assert SkipSpace(s, 12) == 12;
    assert SkipSpace(s, 10) == 12;
    assert LastBadArg(s, 10, 11) == Some(11);
    assert LastBadArg(s, 10, 12) == Some(11);
    InvalidWhole(s, 11);
    ReportedAsIs(s);
  }

  /** The only `Localized(` is at `c0` and its argument starts, after the spaces and line
      breaks `[\s\n]*` reads, with a literal: nothing is reported. */
  lemma LiteralArgumentAccepted(s: string, c0: nat, q: nat)
    requires c0 + 10 <= q < |s| && s[c0..c0 + 10] == "Localized(" && s[q] == '"'
    requires forall c :: c0 + 10 <= c < q ==> s[c] == ' ' || s[c] == '\n'
    requires forall c :: 0 <= c < |s| && c != c0 ==> s[c] != 'L'
    ensures OffendingCalls(s) == []
  {
    PlainOpening(s, c0);
    SpacesThenQuote(s, c0 + 10, q);
    NothingReported(s, c0);
  }

  /** Over spaces and line breaks up to a quote, `[\s\n]*[^"@\n\r ]` finds nothing. */
  lemma {:induction false} SpacesThenQuote(s: string, j: nat, q: nat)
    requires j <= q < |s| && s[q] == '"'
    requires forall c :: j <= c < q ==> s[c] == ' ' || s[c] == '\n'
    ensures SkipSpace(s, j) == q && LastBadArg(s, j, q).None?
    decreases q - j
  {
    if j < q {
      SpacesThenQuote(s, j + 1, q);
    }
    assert forall c :: j <= c <= q ==> !BadArgChar(s[c]);
  }

  /** The documented pair: an argument built with `String(format:)` inside `Localized(` is
      reported, while `Localized(` inside `String(format:)` is not. */
  lemma FormatArgumentReported()
    ensures var s := "Localized(" + "String(format: \"You are " + "%@ years old\", age), " + "\"Comment\")";
      OffendingCalls(s) == [s]
  {
    var s := "Localized(" + "String(format: \"You are " + "%@ years old\", age), " + "\"Comment\")";
    assert s[..10] == "Localized(";
    BadArgumentReported(s);
  }

  lemma FormatAroundLocalizedAccepted()
    ensures OffendingCalls("String(format: " + "Localized(" + "\"You are %@ years old\", " + "\"Comment\"), age)") == []
  {
    var s := "String(format: " + "Localized(" + "\"You are %@ years old\", " + "\"Comment\"), age)";
    assert s[15..25] == "Localized(";
    LiteralArgumentAccepted(s, 15, 25);
  }

  /** A call split after its parenthesis is reported when the next line starts its literal
      with a tab, which `[\s\n]*` gives back to `[^"@\n\r ]`, but not when it indents with
      spaces. */
  lemma TabIndentedArgumentReported()
    ensures OffendingCalls("Localized(\n\t\"a\", \"b\")") == ["Localized(\n\t\"a\", \"b\")"]
  {
    var s := "Localized(\n\t\"a\", \"b\")";
    assert s[..10] == "Localized(";
    TabArgumentReported(s);
  }

  lemma SpaceIndentedArgumentAccepted()
    ensures OffendingCalls("Localized(\n  \"a\", \"b\")") == []
  {
    var s := "Localized(\n  \"a\", \"b\")";
    assert s[0..10] == "Localized(";
    LiteralArgumentAccepted(s, 0, 13);
  }

  /** Without any `Localized(` or `LocalizedWithKeyExtension(` the validation pass finds
      nothing. */
  lemma {:induction false} NoInvalidCallsWithoutLocalized(s: string, i: nat)
    requires i <= |s| && !Contains(s, "Localized")
    ensures FindAllInvalid(s, i) == []
    decreases |s| - i
  {
    if i < |s| {
      NoCallOpening(s, i, LineEnd(s, i));
      NoInvalidCallsWithoutLocalized(s, i + 1);
    }
  }

  lemma {:induction false} NoCallOpening(s: string, p: nat, k: nat)
    requires p <= k <= |s| && !Contains(s, "Localized")
    ensures InvalidCallFrom(s, p, k) == None
    decreases k - p
  {
    NameOpening(s, k, "LocalizedWithKeyExtension(");
    NameOpening(s, k, "Localized(");
    if k > p {
      NoCallOpening(s, p, k - 1);
    }
  }

  /** A text that holds a call opening holds the word `Localized` at the same place. */
  lemma NameOpening(s: string, k: nat, opening: string)
    requires StartsWith(opening, "Localized")
    ensures OccursAt(s, opening, k) ==> Contains(s, "Localized")
  {
    if OccursAt(s, opening, k) {
      assert s[k..k + 9] == s[k..k + |opening|][..9];
      assert OccursAt(s, "Localized", k);
    }
  }

  /** Without the word `Localized` no call pattern of either language matches. */
  lemma {:induction false} NoMatchesWithoutLocalized(s: string, p: CallPattern, i: nat)
    requires i <= |s| && p.groups >= 1 && StartsWith(p.name, "Localized")
    requires !Contains(s, "Localized")
    ensures Scanned(s, p, i) == []
    decreases |s| - i
  {
    if i < |s| {
      assert StartsWith(p.name + "(", "Localized") by {
        assert (p.name + "(")[..9] == p.name[..9];
      }
      NameOpening(s, i, p.name + "(");
      NoMatchesWithoutLocalized(s, p, i + 1);
    }
  }

  // ---------------------------------------------------------------------------------------
  // Collecting and classifying the matches (detection.py:50-72, 101-193)

  /** A capture tuple together with the pattern that produced it (`match + (pattern,)`). */
  datatype RawMatch = RawMatch(captures: seq<string>, pattern: CallPattern)

  /** `_get_matches`: the matches tagged with their pattern, or an error for the first
      match whose number of captures is not the expected one. */
  function Checked(ms: seq<seq<string>>, p: CallPattern, expected: nat): (r: Result<seq<RawMatch>>)
    ensures r.Ok? <==> forall i :: 0 <= i < |ms| ==> |ms[i]| == expected
    ensures r.Ok? ==> |r.value| == |ms| && forall i :: 0 <= i < |ms| ==> r.value[i] == RawMatch(ms[i], p)
    ensures r.Err? ==>
      exists i :: 0 <= i < |ms| && |ms[i]| != expected && r.error == CaptureCountMismatch(ms[i])
                  && forall j :: 0 <= j < i ==> |ms[j]| == expected
  {
    if ms == [] then Ok([])
    else if |ms[0]| != expected then Err(CaptureCountMismatch(ms[0]))
    else
      match Checked(ms[1..], p, expected)
      case Ok(rest) => Ok([RawMatch(ms[0], p)] + rest)
      case Err(e) =>
        assert forall i :: 1 <= i < |ms| ==> ms[i] == ms[1..][i - 1];
        Err(e)
  }

  /** Every pattern of a table captures at least one group and is expected to yield at
      least the value and the comment. */
  predicate UsableTable(patterns: seq<(CallPattern, nat)>) {
    forall i :: 0 <= i < |patterns| ==> patterns[i].0.groups >= 1 && patterns[i].1 >= 2
  }

  /** The matches of every pattern, pattern after pattern, or the first arity error. */
  function AllMatches(s: string, patterns: seq<(CallPattern, nat)>): (r: Result<seq<RawMatch>>)
    requires UsableTable(patterns)
    ensures r.Ok? ==> forall k :: 0 <= k < |r.value| ==>
      (r.value[k].pattern, |r.value[k].captures|) in patterns
  {
    if patterns == [] then Ok([])
    else
      var last := patterns[|patterns| - 1];
      match AllMatches(s, patterns[..|patterns| - 1])
      case Err(e) => Err(e)
      case Ok(earlier) =>
        match Checked(FindAll(s, last.0), last.0, last.1)
        case Err(e) => Err(e)
        case Ok(more) =>
          assert forall k :: 0 <= k < |earlier| ==> (earlier[k].pattern, |earlier[k].captures|) in patterns by {
            forall k | 0 <= k < |earlier|
              ensures (earlier[k].pattern, |earlier[k].captures|) in patterns
            {
              var x := (earlier[k].pattern, |earlier[k].captures|);
              assert x in patterns[..|patterns| - 1];
            }
          }
          Ok(earlier + more)
  }

  /** Once a prefix of the table fails, the whole table fails with the same error. */
  lemma {:induction false} AllMatchesErr(s: string, patterns: seq<(CallPattern, nat)>, n: nat)
    requires UsableTable(patterns) && n <= |patterns|
    requires AllMatches(s, patterns[..n]).Err?
    ensures AllMatches(s, patterns) == AllMatches(s, patterns[..n])
    decreases |patterns| - n
  {
    if n < |patterns| {
      var longer := patterns[..n + 1];
      assert longer[..|longer| - 1] == patterns[..n];
      AllMatchesErr(s, patterns, n + 1);
    } else {
      assert patterns[..n] == patterns;
    }
  }

  /** One record per match: the captures, with the sentinel turned back into `\"`, give
      the value and the comment, then the key extension or the bundle according to the
      number of captures and to whether the match came from the bundle pattern. */
  function Classify(m: RawMatch, bundlePattern: CallPattern): LocalizedString
    requires |m.captures| >= 2
  {
    var c := seq(|m.captures|, i requires 0 <= i < |m.captures| => Restore(m.captures[i]));
    if |c| == 2 then
      LocalizedString(c[0], DefaultLanguage, DefaultTable, c[1], None, DefaultBundle)
    else if |c| == 3 then
      if m.pattern == bundlePattern then
        LocalizedString(c[0], DefaultLanguage, DefaultTable, c[1], None, c[2])
      else
        LocalizedString(c[0], DefaultLanguage, DefaultTable, c[1], Some(c[2]), DefaultBundle)
    else
      LocalizedString(c[0], DefaultLanguage, DefaultTable, c[1], Some(c[2]), c[3])
  }

  /** What each call shape of a language's table becomes. */
  lemma ClassifyTable(d: Dialect, m: RawMatch)
    requires (m.pattern, |m.captures|) in PatternTable(d)
    ensures |m.captures| >= 2
    ensures var r := Classify(m, BundlePattern(d));
      && r.value == Restore(m.captures[0]) && r.comment == Restore(m.captures[1])
      && r.language == "en" && r.table == "LocalizedStringKit"
      && (m.pattern == LocalizedPattern(d) ==>
            r.keyExtension == None && r.bundle == "LocalizedStringKit.bundle")
      && (m.pattern == ExtensionPattern(d) ==>
            r.keyExtension == Some(Restore(m.captures[2])) && r.bundle == "LocalizedStringKit.bundle")
      && (m.pattern == BundlePattern(d) ==>
            r.keyExtension == None && r.bundle == Restore(m.captures[2]))
      && (m.pattern == ExtensionBundlePattern(d) ==>
            r.keyExtension == Some(Restore(m.captures[2])) && r.bundle == Restore(m.captures[3]))
  {
  }

  function ClassifyAll(ms: seq<RawMatch>, bundlePattern: CallPattern): (r: seq<LocalizedString>)
    requires forall k :: 0 <= k < |ms| ==> |ms[k].captures| >= 2
    ensures |r| == |ms|
  {
    seq(|ms|, k requires 0 <= k < |ms| => Classify(ms[k], bundlePattern))
  }

  /** `_detect_strings` on a file's text: the validation pass first, then the matches of
      each pattern in table order, each classified. */
  function Detected(path: string, contents: string, patterns: seq<(CallPattern, nat)>,
                    bundlePattern: CallPattern): Result<seq<LocalizedString>>
    requires UsableTable(patterns)
  {
    var s := Sanitize(contents);
    var calls := OffendingCalls(s);
    if |calls| > 0 then Err(InvalidLocalizedCall(path, calls))
    else
      match AllMatches(s, patterns)
      case Err(e) => Err(e)
      case Ok(ms) =>
        assert forall k :: 0 <= k < |ms| ==> |ms[k].captures| >= 2 by {
          forall k | 0 <= k < |ms| ensures |ms[k].captures| >= 2 {
            var x := (ms[k].pattern, |ms[k].captures|);
            assert x in patterns;
          }
        }
        Ok(ClassifyAll(ms, bundlePattern))
  }

  lemma TableUsable(d: Dialect)
    ensures UsableTable(PatternTable(d))
  {
  }

  /** The matches of the first `n` patterns of a language's table, tagged. */
  function TableTagged(s: string, d: Dialect, n: nat): seq<RawMatch>
    requires n <= 4
  {
    if n == 0 then []
    else TableTagged(s, d, n - 1) + Tagged(FindAll(s, PatternTable(d)[n - 1].0), PatternTable(d)[n - 1].0)
  }

  /** With a language's own table no match ever has the wrong number of captures: the
      matches are those of the four patterns in table order. */
  lemma TableMatches(s: string, d: Dialect)
    ensures UsableTable(PatternTable(d))
    ensures AllMatches(s, PatternTable(d)) == Ok(
      Tagged(FindAll(s, LocalizedPattern(d)), LocalizedPattern(d))
      + Tagged(FindAll(s, ExtensionPattern(d)), ExtensionPattern(d))
      + Tagged(FindAll(s, BundlePattern(d)), BundlePattern(d))
      + Tagged(FindAll(s, ExtensionBundlePattern(d)), ExtensionBundlePattern(d)))
  {
    TablePrefixMatches(s, d, 4);
    assert PatternTable(d)[..4] == PatternTable(d);
    var t := PatternTable(d);
    var one := Tagged(FindAll(s, t[0].0), t[0].0);
    assert TableTagged(s, d, 1) == [] + one;
    assert [] + one == one;
    assert TableTagged(s, d, 2) == TableTagged(s, d, 1) + Tagged(FindAll(s, t[1].0), t[1].0);
    assert TableTagged(s, d, 3) == TableTagged(s, d, 2) + Tagged(FindAll(s, t[2].0), t[2].0);
    assert TableTagged(s, d, 4) == TableTagged(s, d, 3) + Tagged(FindAll(s, t[3].0), t[3].0);
  }

  lemma {:induction false} TablePrefixMatches(s: string, d: Dialect, n: nat)
    requires n <= 4
    ensures UsableTable(PatternTable(d))
    ensures AllMatches(s, PatternTable(d)[..n]) == Ok(TableTagged(s, d, n))
  {
    var t := PatternTable(d);
    if n == 0 {
      assert t[..0] == [];
    } else {
      TablePrefixMatches(s, d, n - 1);
      AllMatchesStep(s, t, n, TableTagged(s, d, n - 1));
    }
  }

  /** The table's next pattern, when its expected count is its number of groups, adds its
      tagged matches. */
  lemma AllMatchesStep(s: string, patterns: seq<(CallPattern, nat)>, n: nat, earlier: seq<RawMatch>)
    requires UsableTable(patterns) && 0 < n <= |patterns|
    requires patterns[n - 1].1 == patterns[n - 1].0.groups
    requires AllMatches(s, patterns[..n - 1]) == Ok(earlier)
    ensures AllMatches(s, patterns[..n])
      == Ok(earlier + Tagged(FindAll(s, patterns[n - 1].0), patterns[n - 1].0))
  {
    var q := patterns[..n];
    assert q[..|q| - 1] == patterns[..n - 1];
    TaggedChecked(s, patterns[n - 1].0);
  }

  function Tagged(ms: seq<seq<string>>, p: CallPattern): (r: seq<RawMatch>)
    ensures |r| == |ms|
  {
    seq(|ms|, k requires 0 <= k < |ms| => RawMatch(ms[k], p))
  }

  lemma TaggedChecked(s: string, p: CallPattern)
    requires p.groups >= 1
    ensures Checked(FindAll(s, p), p, p.groups) == Ok(Tagged(FindAll(s, p), p))
  {
    var ms := FindAll(s, p);
    var r := Checked(ms, p, p.groups);
    assert r.Ok?;
    assert forall k :: 0 <= k < |ms| ==> r.value[k] == Tagged(ms, p)[k];
    assert |r.value| == |Tagged(ms, p)|;
    assert r.value == Tagged(ms, p);
  }

  /** A file is rejected exactly when the validation pass reports calls; otherwise it
      yields one record per match of the four patterns. */
  lemma DetectedOutcome(path: string, contents: string, d: Dialect)
    ensures UsableTable(PatternTable(d))
    ensures var s := Sanitize(contents);
      var r := Detected(path, contents, PatternTable(d), BundlePattern(d));
      && (r.Err? <==> |OffendingCalls(s)| > 0)
      && (r.Err? ==> r.error == InvalidLocalizedCall(path, OffendingCalls(s)))
      && (r.Ok? ==> |r.value| == |FindAll(s, LocalizedPattern(d))| + |FindAll(s, ExtensionPattern(d))|
                                 + |FindAll(s, BundlePattern(d))| + |FindAll(s, ExtensionBundlePattern(d))|)
  {
    var s := Sanitize(contents);
    TableMatches(s, d);
    if |OffendingCalls(s)| == 0 {
      var ms := AllMatches(s, PatternTable(d)).value;
      assert Detected(path, contents, PatternTable(d), BundlePattern(d))
        == Ok(ClassifyAll(ms, BundlePattern(d)));
    }
  }

  /** A text without the word `Localized` yields no strings. */
  lemma NothingWithoutLocalized(path: string, contents: string, d: Dialect)
    requires !Contains(Sanitize(contents), "Localized")
    ensures UsableTable(PatternTable(d))
    ensures Detected(path, contents, PatternTable(d), BundlePattern(d)) == Ok([])
  {
    var s := Sanitize(contents);
    NoInvalidCallsWithoutLocalized(s, 0);
    TableMatches(s, d);
    NoMatchesWithoutLocalized(s, LocalizedPattern(d), 0);
    NoMatchesWithoutLocalized(s, ExtensionPattern(d), 0);
    NoMatchesWithoutLocalized(s, BundlePattern(d), 0);
    NoMatchesWithoutLocalized(s, ExtensionBundlePattern(d), 0);
  }

  // ---------------------------------------------------------------------------------------
  // The detector object (detection.py:14-193, 196-255)

  /** A detector for one file: its path, its text and the text with quote escapes replaced
      by the sentinel, all fixed when it is built; `dialect` stands for the subclass
      (`SwiftDetector` or `ObjcDetector`). */
  class Detector {
    const filePath: string
    const contents: string
    const sanitizedContents: string
    const dialect: Dialect

    ghost predicate Valid() {
      sanitizedContents == Sanitize(contents)
    }

    /** The file's text is a parameter: reading the file is not modelled. */
    constructor (filePath: string, contents: string, dialect: Dialect)
      ensures this.filePath == filePath && this.contents == contents && this.dialect == dialect
      ensures Valid()
    {
      this.filePath := filePath;
      this.contents := contents;
      this.dialect := dialect;
      this.sanitizedContents := Sanitize(contents);
    }

    /** `_get_matches`: the matches of `pattern`, each tagged with it; the first match with
        another number of captures than `expected` is an error. */
    method GetMatches(pattern: CallPattern, expected: nat) returns (r: Result<seq<RawMatch>>)
      requires pattern.groups >= 1
      ensures r == Checked(FindAll(sanitizedContents, pattern), pattern, expected)
    {
      var found := FindAll(sanitizedContents, pattern);
      var buffer: seq<RawMatch> := [];
      for i := 0 to |found|
        invariant |buffer| == i
        invariant forall k :: 0 <= k < i ==> |found[k]| == expected && buffer[k] == RawMatch(found[k], pattern)
      {
        if |found[i]| != expected {
          return Err(CaptureCountMismatch(found[i]));
        }
        buffer := buffer + [RawMatch(found[i], pattern)];
      }
      ghost var checked := Checked(found, pattern, expected);
      assert checked.Ok?;
      assert checked.value == buffer;
      return Ok(buffer);
    }

    /** `confirm_string_args_only`: fails, naming the calls, when the validation pass
        reports any. */
    method ConfirmStringArgsOnly() returns (failure: Option<Error>)
      ensures failure.Some? <==> |OffendingCalls(sanitizedContents)| > 0
      ensures failure.Some? ==> failure.value == InvalidLocalizedCall(filePath, OffendingCalls(sanitizedContents))
    {
      var matches := FindAllInvalid(sanitizedContents, 0);
      matches := StripAll(matches);
      matches := DropDefinitions(matches);
      if |matches| > 0 {
        failure := Some(InvalidLocalizedCall(filePath, matches));
      } else {
        failure := None;
      }
    }

    /** `_detect_strings`: the validation pass, then the matches of every pattern in order,
        then one record per match. */
    method DetectStrings(patterns: seq<(CallPattern, nat)>, bundlePattern: CallPattern)
      returns (r: Result<seq<LocalizedString>>)
      requires Valid() && UsableTable(patterns)
      ensures r == Detected(filePath, contents, patterns, bundlePattern)
    {
      var failure := ConfirmStringArgsOnly();
      if failure.Some? {
        return Err(failure.value);
      }
      var buffer: seq<RawMatch> := [];
      for i := 0 to |patterns|
        invariant AllMatches(sanitizedContents, patterns[..i]) == Ok(buffer)
      {
        var found := GetMatches(patterns[i].0, patterns[i].1);
        var upTo := patterns[..i + 1];
        assert upTo[..|upTo| - 1] == patterns[..i];
        if found.Err? {
          AllMatchesErr(sanitizedContents, patterns, i + 1);
          return Err(found.error);
        }
        buffer := buffer + found.value;
      }
      assert patterns[..|patterns|] == patterns;
      forall k | 0 <= k < |buffer| ensures |buffer[k].captures| >= 2 {
        assert (buffer[k].pattern, |buffer[k].captures|) in patterns;
      }
      var results := ClassifyMatches(buffer, bundlePattern);
      return Ok(results);
    }

    /** The last loop of `_detect_strings`: one record per match, in order. */
    method ClassifyMatches(buffer: seq<RawMatch>, bundlePattern: CallPattern)
      returns (results: seq<LocalizedString>)
      requires forall k :: 0 <= k < |buffer| ==> |buffer[k].captures| >= 2
      ensures results == ClassifyAll(buffer, bundlePattern)
    {
      results := [];
      for i := 0 to |buffer|
        invariant |results| == i
        invariant forall k :: 0 <= k < i ==> results[k] == Classify(buffer[k], bundlePattern)
      {
        results := results + [Classify(buffer[i], bundlePattern)];
      }
    }

    /** `find_strings` of the subclass: its own table and bundle pattern. */
    method FindStrings() returns (r: Result<seq<LocalizedString>>)
      requires Valid()
      ensures r == Detected(filePath, contents, PatternTable(dialect), BundlePattern(dialect))
    {
      TableUsable(dialect);
      r := DetectStrings(PatternTable(dialect), BundlePattern(dialect));
    }
  }

  // ---------------------------------------------------------------------------------------
  // Files (detection.py:258-295)

  /** The language of a file, from its extension. */
  function DialectOf(path: string): Option<Dialect> {
    if EndsWith(path, ".swift") then Some(Swift)
    else if EndsWith(path, ".m") then Some(ObjC)
    else None
  }

  /** `strings_in_code_file` on a file with the given text. */
  function InFile(path: string, contents: string): (r: Result<seq<LocalizedString>>)
    ensures r == Err(UnknownFileType(path)) <==> !EndsWith(path, ".swift") && !EndsWith(path, ".m")
    ensures EndsWith(path, ".swift") ==>
      UsableTable(PatternTable(Swift)) && r == Detected(path, contents, PatternTable(Swift), BundlePattern(Swift))
    ensures !EndsWith(path, ".swift") && EndsWith(path, ".m") ==>
      UsableTable(PatternTable(ObjC)) && r == Detected(path, contents, PatternTable(ObjC), BundlePattern(ObjC))
  {
    match DialectOf(path)
    case None => Err(UnknownFileType(path))
    case Some(d) =>
      TableUsable(d);
      DetectedOutcome(path, contents, d);
      Detected(path, contents, PatternTable(d), BundlePattern(d))
  }

  /** The strings of two steps in order, or the first step's error. */
  function Then(x: Result<seq<LocalizedString>>, y: Result<seq<LocalizedString>>): Result<seq<LocalizedString>> {
    if x.Err? then x else if y.Err? then y else Ok(x.value + y.value)
  }

  /** `strings_in_code_files`: the strings of every file, in file order, or the first
      file's error; `read` gives each file's text. */
  function InFiles(paths: seq<string>, read: string -> string): Result<seq<LocalizedString>> {
    Concatenated(paths, p => InFile(p, read(p)))
  }

  /** The results of `scan` on every path joined in order, or the first error. */
  function Concatenated(paths: seq<string>, scan: string -> Result<seq<LocalizedString>>): Result<seq<LocalizedString>> {
    if paths == [] then Ok([])
    else
      var last := paths[|paths| - 1];
      Then(Concatenated(paths[..|paths| - 1], scan), scan(last))
  }

  method StringsInCodeFile(path: string, contents: string) returns (r: Result<seq<LocalizedString>>)
    ensures r == InFile(path, contents)
  {
    var detector: Detector;
    if EndsWith(path, ".swift") {
      detector := new Detector(path, contents, Swift);
    } else if EndsWith(path, ".m") {
      detector := new Detector(path, contents, ObjC);
    } else {
      return Err(UnknownFileType(path));
    }
    r := detector.FindStrings();
  }

  method StringsInCodeFiles(paths: seq<string>, read: string -> string)
    returns (r: Result<seq<LocalizedString>>)
    ensures r == InFiles(paths, read)
  {
    var strings: seq<LocalizedString> := [];
    for i := 0 to |paths|
      invariant InFiles(paths[..i], read) == Ok(strings)
    {
      var found := StringsInCodeFile(paths[i], read(paths[i]));
      var upTo := paths[..i + 1];
      assert upTo[..|upTo| - 1] == paths[..i];
      if found.Err? {
        InFilesErr(paths, read, i + 1);
        return Err(found.error);
      }
      strings := strings + found.value;
    }
    assert paths[..|paths|] == paths;
    return Ok(strings);
  }

  lemma InFilesErr(paths: seq<string>, read: string -> string, n: nat)
    requires n <= |paths| && InFiles(paths[..n], read).Err?
    ensures InFiles(paths, read) == InFiles(paths[..n], read)
  {
    ConcatenatedErr(paths, p => InFile(p, read(p)), n);
  }

  lemma {:induction false} ConcatenatedErr(paths: seq<string>, scan: string -> Result<seq<LocalizedString>>, n: nat)
    requires n <= |paths| && Concatenated(paths[..n], scan).Err?
    ensures Concatenated(paths, scan) == Concatenated(paths[..n], scan)
    decreases |paths| - n
  {
    if n < |paths| {
      var longer := paths[..n + 1];
      assert longer[..|longer| - 1] == paths[..n];
      ConcatenatedErr(paths, scan, n + 1);
    } else {
      assert paths[..n] == paths;
    }
  }

  lemma ThenAssociative(x: Result<seq<LocalizedString>>, y: Result<seq<LocalizedString>>,
                         z: Result<seq<LocalizedString>>)
    ensures Then(Then(x, y), z) == Then(x, Then(y, z))
  {
    if x.Ok? && y.Ok? && z.Ok? {
      assert x.value + y.value + z.value == x.value + (y.value + z.value);
    }
  }

  /** Scanning two lists of files one after the other is scanning their concatenation:
      the strings come in file order, and the first failing file decides the error. */
  lemma InFilesAppend(a: seq<string>, b: seq<string>, read: string -> string)
    ensures InFiles(a + b, read) == Then(InFiles(a, read), InFiles(b, read))
  {
    ConcatenatedAppend(a, b, p => InFile(p, read(p)));
  }

  lemma {:induction false} ConcatenatedAppend(a: seq<string>, b: seq<string>, scan: string -> Result<seq<LocalizedString>>)
    ensures Concatenated(a + b, scan) == Then(Concatenated(a, scan), Concatenated(b, scan))
    decreases |b|
  {
    if b == [] {
      assert a + b == a;
      var x := Concatenated(a, scan);
      if x.Ok? {
        assert x.value + [] == x.value;
      }
    } else {
      var b0 := b[..|b| - 1];
      var last := b[|b| - 1];
      ConcatenatedAppend(a, b0, scan);
      assert (a + b)[..|a + b| - 1] == a + b0;
      assert (a + b)[|a + b| - 1] == last;
      ThenAssociative(Concatenated(a, scan), Concatenated(b0, scan), scan(last));
    }
  }
}
