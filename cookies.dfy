/**
 * The cookie format of script.js: the text `setCookie` assigns to
 * `document.cookie`, and `getCookie`, which reads one value back out of the
 * string the browser returns. The browser's cookie jar is modelled as an
 * ordered list of name/value pairs; assigning `name=value; attrs` replaces
 * the first cookie of that name, or appends a new one, and reading
 * `document.cookie` joins the pairs with "; ".
 */
module Cookies {
  import opened Wrappers

  datatype Cookie = Cookie(name: string, value: string)

  /** A name the browser can hold: not empty, no `=` or `;`, no leading space. */
  predicate ValidName(n: string) {
    |n| > 0 && n[0] != ' ' && '=' !in n && ';' !in n
  }

  predicate ValidValue(v: string) {
    ';' !in v
  }

  predicate ValidJar(jar: seq<Cookie>) {
    forall i :: 0 <= i < |jar| ==> ValidName(jar[i].name) && ValidValue(jar[i].value)
  }

  // ---------------------------------------------------------------------------
  // Writing: setCookie and the browser's handling of the assignment

  /**
   * What `setCookie(name, value, days)` assigns, without its `expires`
   * attribute; the browser reads back from it exactly the pair it was given.
   */
  function SetCookieString(name: string, value: string): (r: string)
    ensures ValidName(name) && ValidValue(value) ==> CookiePair(r) == Cookie(name, value)
  {
    var r := name + "=" + value + "; path=/";
    assert ValidName(name) && ValidValue(value) ==> CookiePair(r) == Cookie(name, value) by {
      if ValidName(name) && ValidValue(value) {
        PairWithAttributes(name, value, "; path=/");
      }
    }
    r
  }

  /** First index of `ch` in `s`, or `|s|` when there is none. */
  function IndexOf(s: string, ch: char): (r: nat)
    ensures r <= |s|
    ensures r < |s| ==> s[r] == ch
    ensures forall i :: 0 <= i < r ==> s[i] != ch
    decreases |s|
  {
    if s == [] then 0 else if s[0] == ch then 0 else 1 + IndexOf(s[1..], ch)
  }

  lemma IndexOfAt(s: string, ch: char, k: nat)
    requires k <= |s| && (k < |s| ==> s[k] == ch)
    requires forall i :: 0 <= i < k ==> s[i] != ch
    ensures IndexOf(s, ch) == k
  {
  }

  /** The name/value pair the browser takes from an assignment: the text up to the first `;`, split at its first `=`. */
  function CookiePair(assignment: string): Cookie {
    var pair := assignment[..IndexOf(assignment, ';')];
    var eq := IndexOf(pair, '=');
    if eq == |pair| then Cookie("", pair) else Cookie(pair[..eq], pair[eq + 1..])
  }

  /** Replace the first cookie named `c.name`, or append `c` when there is none. */
  function Upsert(jar: seq<Cookie>, c: Cookie): (r: seq<Cookie>)
    ensures |r| == |jar| || r == jar + [c]
    decreases |jar|
  {
    if jar == [] then [c]
    else if jar[0].name == c.name then [c] + jar[1..]
    else [jar[0]] + Upsert(jar[1..], c)
  }

  /** The jar after `document.cookie = assignment`. */
  function Assign(jar: seq<Cookie>, assignment: string): seq<Cookie> {
    Upsert(jar, CookiePair(assignment))
  }

  /** The value of the first cookie called `name`. */
  function Lookup(jar: seq<Cookie>, name: string): Option<string>
    decreases |jar|
  {
    if jar == [] then None
    else if jar[0].name == name then Some(jar[0].value)
    else Lookup(jar[1..], name)
  }

  // ---------------------------------------------------------------------------
  // Reading: document.cookie and getCookie

  function Entry(c: Cookie): string {
    c.name + "=" + c.value
  }

  /** The `;`-separated pieces of `document.cookie` as the browser lays them out. */
  function Segments(jar: seq<Cookie>): (r: seq<string>)
    ensures |r| >= 1
  {
    if jar == [] then [""] else [Entry(jar[0])] + LaterSegments(jar[1..])
  }

  function LaterSegments(jar: seq<Cookie>): (r: seq<string>)
    ensures |r| == |jar|
    decreases |jar|
  {
    if jar == [] then [] else [" " + Entry(jar[0])] + LaterSegments(jar[1..])
  }

  function JoinSemi(parts: seq<string>): string
    requires |parts| >= 1
    decreases |parts|
  {
    if |parts| == 1 then parts[0] else parts[0] + ";" + JoinSemi(parts[1..])
  }

  /** The string `document.cookie` returns: the jar's pairs joined by "; ". */
  function DocumentCookie(jar: seq<Cookie>): string {
    JoinSemi(Segments(jar))
  }

  /** `s.split(';')`. */
  function Split(s: string): (parts: seq<string>)
    ensures |parts| >= 1
    decreases |s|
  {
    var i := IndexOf(s, ';');
    if i == |s| then [s] else [s[..i]] + Split(s[i + 1..])
  }

  /** `s` with its leading spaces removed. */
  function StripLeadingSpaces(s: string): (r: string)
    ensures |r| <= |s| && r == s[|s| - |r|..]
    ensures forall i :: 0 <= i < |s| - |r| ==> s[i] == ' '
    ensures r == [] || r[0] != ' '
    decreases |s|
  {
    if |s| > 0 && s[0] == ' ' then StripLeadingSpaces(s[1..]) else s
  }

  /** What follows `prefix` in the first part that, stripped of leading spaces, starts with it. */
  function FirstMatch(parts: seq<string>, prefix: string): (r: Option<string>)
    ensures r.None? <==> MatchIndex(parts, prefix) == |parts|
    ensures r.Some? ==> StripLeadingSpaces(parts[MatchIndex(parts, prefix)]) == prefix + r.value
    decreases |parts|
  {
    if parts == [] then None
    else
      var c := StripLeadingSpaces(parts[0]);
      if prefix <= c then
        assert c == prefix + c[|prefix|..];
        Some(c[|prefix|..])
      else
        FirstMatch(parts[1..], prefix)
  }

  /** The entry, stripped of its leading spaces, starts with `prefix` (`c.indexOf(prefix) == 0`). */
  predicate Matches(entry: string, prefix: string) {
    prefix <= StripLeadingSpaces(entry)
  }

  /** Index of the first entry that starts, after its leading spaces, with `prefix`; `|parts|` when there is none. */
  function MatchIndex(parts: seq<string>, prefix: string): (k: nat)
    ensures k <= |parts|
    ensures k < |parts| ==> Matches(parts[k], prefix)
    ensures forall i :: 0 <= i < k ==> !Matches(parts[i], prefix)
    decreases |parts|
  {
    if parts == [] then 0
    else if Matches(parts[0], prefix) then 0
    else
      var k := MatchIndex(parts[1..], prefix);
      assert forall i :: 1 <= i <= k ==> parts[i] == parts[1..][i - 1];
      1 + k
  }

  /** `getCookie(name)` over the text `cookie`; CookieValueFirst says what it finds. */
  function CookieValue(cookie: string, name: string): Option<string> {
    FirstMatch(Split(cookie), name + "=")
  }

  /**
   * `getCookie(name)` finds nothing exactly when no `;`-separated entry
   * starts, after its leading spaces, with `name=`; otherwise it returns the
   * rest of the first entry that does.
   */
  lemma CookieValueFirst(cookie: string, name: string)
    ensures CookieValue(cookie, name).None? <==> forall k :: 0 <= k < |Split(cookie)| ==> !Matches(Split(cookie)[k], name + "=")
    ensures CookieValue(cookie, name).Some? ==>
      exists k :: 0 <= k < |Split(cookie)| && StripLeadingSpaces(Split(cookie)[k]) == name + "=" + CookieValue(cookie, name).value &&
        forall j :: 0 <= j < k ==> !Matches(Split(cookie)[j], name + "=")
  {
    assert CookieValue(cookie, name) == FirstMatch(Split(cookie), name + "=");
    FirstMatchFirst(Split(cookie), name + "=");
  }

  /** FirstMatch finds nothing exactly when no entry matches, and otherwise reads the first entry that does. */
  lemma FirstMatchFirst(parts: seq<string>, prefix: string)
    ensures FirstMatch(parts, prefix).None? <==> forall k :: 0 <= k < |parts| ==> !Matches(parts[k], prefix)
    ensures FirstMatch(parts, prefix).Some? ==>
      exists k :: 0 <= k < |parts| && StripLeadingSpaces(parts[k]) == prefix + FirstMatch(parts, prefix).value &&
        forall j :: 0 <= j < k ==> !Matches(parts[j], prefix)
  {
    var k := MatchIndex(parts, prefix);
    if k < |parts| {
      assert Matches(parts[k], prefix);
    }
  }

  /** The inner loop of `getCookie`: drop the entry's leading spaces one at a time. */
  method SkipSpaces(entry: string) returns (c: string)
    ensures c == StripLeadingSpaces(entry)
  {
    c := entry;
    while |c| > 0 && c[0] == ' '
      invariant StripLeadingSpaces(c) == StripLeadingSpaces(entry)
      decreases |c|
    {
      c := c[1..];
    }
  }

  /** `getCookie`: walk the `;`-separated entries, strip leading spaces, return what follows `name=`. */
  method GetCookie(cookie: string, name: string) returns (r: Option<string>)
    ensures r == CookieValue(cookie, name)
  {
    var nameEQ := name + "=";
    var ca := Split(cookie);
    for i := 0 to |ca|
      invariant FirstMatch(ca[i..], nameEQ) == FirstMatch(ca, nameEQ)
    {
      var c := SkipSpaces(ca[i]);
      FirstMatchAt(ca, i, nameEQ);
      if nameEQ <= c {
        r := Some(c[|nameEQ|..]);
        return;
      }
    }
    r := None;
  }

  // ---------------------------------------------------------------------------
  // Lemmas

  /** One step of `getCookie`'s loop: entry `i` either matches or the search goes on at `i + 1`. */
  lemma FirstMatchAt(parts: seq<string>, i: nat, prefix: string)
    requires i < |parts|
    ensures var c := StripLeadingSpaces(parts[i]);
      FirstMatch(parts[i..], prefix) == if prefix <= c then Some(c[|prefix|..]) else FirstMatch(parts[i + 1..], prefix)
  {
    assert parts[i..][0] == parts[i] && parts[i..][1..] == parts[i + 1..];
  }

  lemma {:induction false} SplitJoin(parts: seq<string>)
    requires |parts| >= 1
    requires forall k :: 0 <= k < |parts| ==> ';' !in parts[k]
    ensures Split(JoinSemi(parts)) == parts
    decreases |parts|
  {
    if |parts| == 1 {
      IndexOfAt(parts[0], ';', |parts[0]|);
    } else {
      SplitCons(parts[0], JoinSemi(parts[1..]));
      SplitJoin(parts[1..]);
    }
  }

  /** Splitting `p;rest` for a `p` without `;` gives `p`, then the pieces of `rest`. */
  lemma SplitCons(p: string, rest: string)
    requires ';' !in p
    ensures Split(p + ";" + rest) == [p] + Split(rest)
  {
    var s := p + ";" + rest;
    assert forall i :: 0 <= i < |p| ==> s[i] == p[i];
    IndexOfAt(s, ';', |p|);
    assert s[..|p|] == p;
    assert s[|p| + 1..] == rest;
  }

  lemma StripEntry(c: Cookie)
    requires ValidName(c.name)
    ensures StripLeadingSpaces(Entry(c)) == Entry(c)
    ensures StripLeadingSpaces(" " + Entry(c)) == Entry(c)
  {
    var e := Entry(c);
    assert e[0] == c.name[0];
    assert (" " + e)[1..] == e;
  }

  /** A jar entry starts with `name=` exactly when its name is `name`. */
  lemma EntryPrefix(name: string, c: Cookie)
    requires ValidName(name) && ValidName(c.name)
    ensures name + "=" <= Entry(c) <==> c.name == name
  {
    var e := Entry(c);
    assert forall i :: 0 <= i < |c.name| ==> e[i] == c.name[i];
    IndexOfAt(e, '=', |c.name|);
    if name + "=" <= e {
      assert forall i :: 0 <= i < |name| ==> e[i] == name[i];
      IndexOfAt(e, '=', |name|);
      assert name == e[..|name|] == c.name;
    }
  }

  lemma EntryValue(c: Cookie)
    ensures Entry(c)[|c.name + "="|..] == c.value
  {
  }

  lemma {:induction false} LaterSegmentsFree(jar: seq<Cookie>)
    requires ValidJar(jar)
    ensures forall k :: 0 <= k < |jar| ==> ';' !in LaterSegments(jar)[k]
    decreases |jar|
  {
    if jar != [] {
      LaterSegmentsFree(jar[1..]);
      var later := LaterSegments(jar);
      assert later[0] == " " + Entry(jar[0]);
      assert later[1..] == LaterSegments(jar[1..]);
    }
  }

  lemma SegmentsFree(jar: seq<Cookie>)
    requires ValidJar(jar)
    ensures forall k :: 0 <= k < |Segments(jar)| ==> ';' !in Segments(jar)[k]
  {
    if jar != [] {
      LaterSegmentsFree(jar[1..]);
      var segs := Segments(jar);
      assert segs[1..] == LaterSegments(jar[1..]);
      assert segs[0] == Entry(jar[0]);
      forall k | 1 <= k < |segs| ensures ';' !in segs[k] {
        assert segs[k] == segs[1..][k - 1];
      }
    }
  }

  lemma {:induction false} LaterSegmentsMatch(jar: seq<Cookie>, name: string)
    requires ValidJar(jar) && ValidName(name)
    ensures FirstMatch(LaterSegments(jar), name + "=") == Lookup(jar, name)
    decreases |jar|
  {
    if jar != [] {
      var later := LaterSegments(jar);
      assert later[0] == " " + Entry(jar[0]);
      assert later[1..] == LaterSegments(jar[1..]);
      StripEntry(jar[0]);
      EntryPrefix(name, jar[0]);
      EntryValue(jar[0]);
      LaterSegmentsMatch(jar[1..], name);
    }
  }

  /** For a non-empty jar the first entry is tried, then the later ones. */
  lemma SegmentsMatch(jar: seq<Cookie>, name: string)
    requires jar != []
    requires ValidJar(jar) && ValidName(name)
    ensures FirstMatch(Segments(jar), name + "=") == Lookup(jar, name)
  {
    var segs := Segments(jar);
    assert segs[0] == Entry(jar[0]);
    assert segs[1..] == LaterSegments(jar[1..]);
    StripEntry(jar[0]);
    EntryPrefix(name, jar[0]);
    EntryValue(jar[0]);
    LaterSegmentsMatch(jar[1..], name);
  }

  /** `getCookie` over what the browser returns finds exactly the jar's value of that name. */
  lemma CookieValueOfJar(jar: seq<Cookie>, name: string)
    requires ValidJar(jar) && ValidName(name)
    ensures CookieValue(DocumentCookie(jar), name) == Lookup(jar, name)
  {
    var segs := Segments(jar);
    SegmentsFree(jar);
    SplitJoin(segs);
    assert Split(DocumentCookie(jar)) == segs;
    if jar != [] {
      SegmentsMatch(jar, name);
    }
  }

  /** Whatever attributes follow the first `;`, the browser takes the pair `name=value` in front of them. */
  lemma PairWithAttributes(name: string, value: string, attrs: string)
    requires ValidName(name) && ValidValue(value)
    requires attrs == [] || attrs[0] == ';'
    ensures CookiePair(name + "=" + value + attrs) == Cookie(name, value)
  {
    var a := name + "=" + value + attrs;
    var pairText := name + "=" + value;
    assert a == pairText + attrs;
    assert forall i :: 0 <= i < |pairText| ==> a[i] == pairText[i];
    IndexOfAt(a, ';', |pairText|);
    assert a[..IndexOf(a, ';')] == pairText;
    assert forall i :: 0 <= i < |name| ==> pairText[i] == name[i];
    IndexOfAt(pairText, '=', |name|);
    assert pairText[..|name|] == name;
    assert pairText[|name| + 1..] == value;
  }

  lemma {:induction false} UpsertLookup(jar: seq<Cookie>, c: Cookie, name: string)
    ensures Lookup(Upsert(jar, c), name) == if name == c.name then Some(c.value) else Lookup(jar, name)
    decreases |jar|
  {
    if jar != [] && jar[0].name != c.name {
      UpsertLookup(jar[1..], c, name);
    }
  }

  lemma {:induction false} UpsertValid(jar: seq<Cookie>, c: Cookie)
    requires ValidJar(jar) && ValidName(c.name) && ValidValue(c.value)
    ensures ValidJar(Upsert(jar, c))
    decreases |jar|
  {
    if jar != [] && jar[0].name != c.name {
      UpsertValid(jar[1..], c);
    }
  }

  /**
   * Round trip: after `setCookie(name, value)`, `getCookie(name)` returns
   * `value`, every other cookie reads as before, and the jar stays well formed.
   */
  lemma CookieRoundTrip(jar: seq<Cookie>, name: string, value: string, other: string)
    requires ValidJar(jar) && ValidName(name) && ValidValue(value) && ValidName(other)
    ensures ValidJar(Assign(jar, SetCookieString(name, value)))
    ensures CookieValue(DocumentCookie(Assign(jar, SetCookieString(name, value))), name) == Some(value)
    ensures other != name ==>
      CookieValue(DocumentCookie(Assign(jar, SetCookieString(name, value))), other) == CookieValue(DocumentCookie(jar), other)
  {
    var c := Cookie(name, value);
    UpsertValid(jar, c);
    UpsertLookup(jar, c, name);
    UpsertLookup(jar, c, other);
    CookieValueOfJar(Upsert(jar, c), name);
    CookieValueOfJar(Upsert(jar, c), other);
    CookieValueOfJar(jar, other);
  }
}
