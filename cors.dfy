/**
  The CORS allow-list of the backend: the `CORS_ORIGIN` setting is split on
  commas, every entry is trimmed and empty entries are dropped; a request's
  `Origin` is admitted when it is absent or empty, or is exactly one of the
  entries.
 */
module Cors {

  datatype Option<T> = None | Some(value: T)

  /** What the origin callback hands back to the CORS middleware. */
  datatype Decision = Allow | Deny(error: string)

  const DefaultOrigins: string := "http://localhost:3000"
  const Separator: char := ','
  const NotAllowed: string := "CORS not allowed"

  /** The code points JavaScript's `String.prototype.trim` removes: the
      WhiteSpace and LineTerminator productions of ECMAScript. */
  predicate IsSpace(c: char) {
    var n := c as int;
    n == 0x09 || n == 0x0A || n == 0x0B || n == 0x0C || n == 0x0D || n == 0x20
    || n == 0xA0 || n == 0x1680 || (0x2000 <= n <= 0x200A) || n == 0x2028 || n == 0x2029
    || n == 0x202F || n == 0x205F || n == 0x3000 || n == 0xFEFF
  }

  predicate AllSpace(s: string) {
    forall i :: 0 <= i < |s| ==> IsSpace(s[i])
  }

  /** No whitespace at either end. */
  predicate Trimmed(s: string) {
    s == [] || (!IsSpace(s[0]) && !IsSpace(s[|s| - 1]))
  }

  // ----- String.prototype.split with a one-character separator -----

  /** The pieces of `s` between occurrences of `sep`, like `s.split(sep)`:
      there is always at least one piece, and adjacent or edge separators
      give empty pieces. */
  function Split(s: string, sep: char): (r: seq<string>)
    ensures |r| >= 1
    ensures forall i :: 0 <= i < |r| ==> sep !in r[i]
    ensures Join(r, sep) == s
  {
    if s == [] then [""]
    else
      var rest := Split(s[1..], sep);
      if s[0] == sep then [""] + rest
      else [[s[0]] + rest[0]] + rest[1..]
  }

  /** The pieces glued back together with `sep` between them. */
  function Join(parts: seq<string>, sep: char): string
    requires |parts| >= 1
  {
    if |parts| == 1 then parts[0] else parts[0] + [sep] + Join(parts[1..], sep)
  }

  /** Splitting a string that starts with a separator-free piece and a
      separator yields that piece followed by the pieces of the rest. */
  lemma {:induction false} SplitAfterPiece(a: string, b: string, sep: char)
    requires sep !in a
    ensures Split(a + [sep] + b, sep) == [a] + Split(b, sep)
  {
    if a != [] {
      assert (a + [sep] + b)[0] == a[0] && (a + [sep] + b)[1..] == a[1..] + [sep] + b;
      SplitAfterPiece(a[1..], b, sep);
      assert [a[0]] + a[1..] == a;
    } else {
      assert (a + [sep] + b)[1..] == b;
    }
  }

  lemma SplitNoSeparator(a: string, sep: char)
    requires sep !in a
    ensures Split(a, sep) == [a]
  {
  }

  /** Split undoes Join on any non-empty list of separator-free pieces. */
  lemma {:induction false} SplitJoin(parts: seq<string>, sep: char)
    requires |parts| >= 1
    requires forall i :: 0 <= i < |parts| ==> sep !in parts[i]
    ensures Split(Join(parts, sep), sep) == parts
  {
    if |parts| == 1 {
      SplitNoSeparator(parts[0], sep);
    } else {
      SplitJoin(parts[1..], sep);
      SplitAfterPiece(parts[0], Join(parts[1..], sep), sep);
    }
  }

  // ----- String.prototype.trim -----

  /** The number of whitespace characters `s` starts with. */
  function LeadingSpaces(s: string): (k: nat)
    ensures k <= |s|
    ensures forall j :: 0 <= j < k ==> IsSpace(s[j])
    ensures k < |s| ==> !IsSpace(s[k])
  {
    if s != [] && IsSpace(s[0]) then 1 + LeadingSpaces(s[1..]) else 0
  }

  /** The number of whitespace characters `s` ends with. */
  function TrailingSpaces(s: string): (k: nat)
    ensures k <= |s|
    ensures forall j :: |s| - k <= j < |s| ==> IsSpace(s[j])
    ensures k < |s| ==> !IsSpace(s[|s| - 1 - k])
  {
    if s != [] && IsSpace(s[|s| - 1]) then 1 + TrailingSpaces(s[..|s| - 1]) else 0
  }

  /** `s.trim()`: what lies between the leading and the trailing whitespace.
      The result has no whitespace at either end, and it is empty exactly
      when `s` is all whitespace. */
  function Trim(s: string): (r: string)
    ensures Trimmed(r)
    ensures r == [] <==> AllSpace(s)
    ensures forall c :: c in r ==> c in s
  {
    var lead := LeadingSpaces(s);
    if lead == |s| then []
    else
      var trail := TrailingSpaces(s);
      assert lead < |s| - trail;
      s[lead..|s| - trail]
  }

  lemma {:induction false} LeadingOfPadded(pre: string, x: string)
    requires AllSpace(pre)
    requires x == [] || !IsSpace(x[0])
    ensures LeadingSpaces(pre + x) == |pre|
  {
    if pre != [] {
      assert (pre + x)[1..] == pre[1..] + x;
      LeadingOfPadded(pre[1..], x);
    } else {
      assert pre + x == x;
    }
  }

  lemma {:induction false} TrailingOfPadded(x: string, post: string)
    requires AllSpace(post)
    requires x == [] || !IsSpace(x[|x| - 1])
    ensures TrailingSpaces(x + post) == |post|
  {
    if post != [] {
      var s := x + post;
      assert s[..|s| - 1] == x + post[..|post| - 1];
      TrailingOfPadded(x, post[..|post| - 1]);
    } else {
      assert x + post == x;
    }
  }

  /** Trim has exactly one possible result: the core of a string that is
      surrounded by whitespace and has none at its own ends. */
  lemma TrimOfPadded(pre: string, core: string, post: string)
    requires AllSpace(pre) && AllSpace(post) && Trimmed(core)
    ensures Trim(pre + core + post) == core
  {
    var s := pre + core + post;
    if core == [] {
      assert AllSpace(s) by {
        assert forall j :: 0 <= j < |s| ==> s[j] == if j < |pre| then pre[j] else post[j - |pre|];
      }
    } else {
      LeadingOfPadded(pre, core + post);
      assert pre + (core + post) == s;
      TrailingOfPadded(pre + core, post);
      assert (pre + core) + post == s;
      assert s[|pre|..|s| - |post|] == core;
    }
  }

  lemma TrimIdempotent(s: string)
    ensures Trim(Trim(s)) == Trim(s)
  {
  }

  // ----- the allow-list -----

  /** `process.env.CORS_ORIGIN || "http://localhost:3000"`: an unset or
      empty setting falls back to the default. */
  function RawOrigins(env: Option<string>): (r: string)
    ensures r != ""
    ensures env.Some? && env.value != "" ==> r == env.value
    ensures env.None? || env.value == "" ==> r == DefaultOrigins
  {
    if env.None? || env.value == "" then DefaultOrigins else env.value
  }

  function TrimAll(parts: seq<string>): (r: seq<string>)
    ensures |r| == |parts|
    ensures forall i :: 0 <= i < |parts| ==> r[i] == Trim(parts[i])
  {
    if parts == [] then [] else [Trim(parts[0])] + TrimAll(parts[1..])
  }

  /** `filter(Boolean)` on strings: the non-empty entries, in order. */
  function DropEmpty(parts: seq<string>): (r: seq<string>)
    ensures |r| <= |parts|
    ensures forall e :: e in r <==> e in parts && e != ""
  {
    if parts == [] then []
    else if parts[0] == "" then DropEmpty(parts[1..])
    else [parts[0]] + DropEmpty(parts[1..])
  }

  lemma TrimAllMembers(parts: seq<string>)
    ensures forall o :: o in TrimAll(parts) <==> exists piece :: piece in parts && Trim(piece) == o
  {
  }

  /** `raw.split(",").map(s => s.trim()).filter(Boolean)`. */
  function ParseOrigins(raw: string): (r: seq<string>)
    ensures forall e :: e in r ==> e != "" && Trimmed(e) && Separator !in e
    ensures forall o :: o in r <==> o != "" && exists piece :: piece in Split(raw, Separator) && Trim(piece) == o
  {
    var pieces := Split(raw, Separator);
    var r := DropEmpty(TrimAll(pieces));
    TrimAllMembers(pieces);
    assert forall e :: e in r ==> Separator !in e by {
      forall e | e in r ensures Separator !in e {
        var piece :| piece in pieces && Trim(piece) == e;
      }
    }
    r
  }

  /** The origin callback: admit when the origin is absent or empty, or is
      an entry of the list; otherwise report "CORS not allowed". */
  function CheckOrigin(origin: Option<string>, allowed: seq<string>): (d: Decision)
    ensures d == Allow || d == Deny(NotAllowed)
  {
    if origin.None? || origin.value == "" || origin.value in allowed then Allow
    else Deny(NotAllowed)
  }

  /** The decision for a request under the configured setting. */
  function Admit(env: Option<string>, origin: Option<string>): (d: Decision)
    ensures d == Allow || d == Deny(NotAllowed)
    ensures d == Allow <==>
      origin.None? || origin.value == "" || origin.value in ParseOrigins(RawOrigins(env))
  {
    CheckOrigin(origin, ParseOrigins(RawOrigins(env)))
  }

  /** A setting that is a single entry without padding is that entry. */
  lemma SingleEntry(raw: string)
    requires raw != "" && Separator !in raw && Trimmed(raw)
    ensures ParseOrigins(raw) == [raw]
  {
    SplitNoSeparator(raw, Separator);
    TrimOfPadded([], raw, []);
    assert [] + raw + [] == raw;
    assert TrimAll([raw]) == [raw];
    assert DropEmpty([raw]) == [raw];
  }

  /** With no setting the list is exactly the local development origin. */
  lemma DefaultList()
    ensures ParseOrigins(RawOrigins(None)) == [DefaultOrigins]
  {
    assert Separator !in DefaultOrigins && Trimmed(DefaultOrigins);
    SingleEntry(DefaultOrigins);
  }

  /** A non-empty origin is admitted exactly when some comma-separated entry
      of the setting, once trimmed, equals it. */
  lemma AdmitIff(env: Option<string>, o: string)
    requires o != ""
    ensures Admit(env, Some(o)) == Allow <==>
      exists piece :: piece in Split(RawOrigins(env), Separator) && Trim(piece) == o
  {
  }

  /** A request without an Origin header, or with an empty one, is always
      admitted, whatever the setting. */
  lemma NoOriginAdmitted(env: Option<string>, origin: Option<string>)
    requires origin.None? || origin.value == ""
    ensures Admit(env, origin) == Allow
  {
  }

  /** An origin with whitespace at either end, or containing a comma, can
      never be admitted. */
  lemma MalformedOriginDenied(env: Option<string>, o: string)
    requires o != ""
    requires !Trimmed(o) || Separator in o
    ensures Admit(env, Some(o)) == Deny(NotAllowed)
  {
  }

  /** Every configured entry, written with or without padding around it, is
      admitted. */
  lemma ConfiguredEntryAdmitted(entries: seq<string>, k: nat, pre: string, core: string, post: string)
    requires k < |entries|
    requires forall i :: 0 <= i < |entries| ==> Separator !in entries[i]
    requires entries[k] == pre + core + post
    requires AllSpace(pre) && AllSpace(post) && Trimmed(core) && core != ""
    ensures Admit(Some(Join(entries, Separator)), Some(core)) == Allow
  {
    var raw := Join(entries, Separator);
    SplitJoin(entries, Separator);
    TrimOfPadded(pre, core, post);
    assert entries[k] in Split(raw, Separator);
  }
}
