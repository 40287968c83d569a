/** The JavaScript semantics the route handlers depend on: the values a JSON
    request body can hold, truthiness (`!x`, `if (x)`), and
    `String.prototype.trim`. */
module Js {

  /** A field of a parsed JSON request body; `Undefined` is a missing field.
      Numbers are kept as integers (see README). */
  datatype Json =
    | Undefined
    | Null
    | Bool(b: bool)
    | Number(n: int)
    | Str(s: string)
    | Arr(items: seq<Json>)
    | Obj

  /** JavaScript truthiness: `undefined`, `null`, `false`, `0` and `""` are falsy. */
  predicate Truthy(v: Json)
    ensures Truthy(v) <==> v !in [Undefined, Null, Bool(false), Number(0), Str("")]
  {
    match v
    case Undefined => false
    case Null => false
    case Bool(b) => b
    case Number(n) => n != 0
    case Str(s) => s != ""
    case Arr(_) => true
    case Obj => true
  }

  /** The code points `trim` removes: WhiteSpace (tab, vertical tab, form feed,
      space, no-break space, byte order mark and the Unicode space separators)
      and LineTerminator (line feed, carriage return, line and paragraph
      separators) of the ECMAScript language specification. */
  predicate IsWhiteSpace(c: char) {
    var k := c as int;
    || k == 0x09 || k == 0x0A || k == 0x0B || k == 0x0C || k == 0x0D
    || k == 0x20 || k == 0xA0 || k == 0x1680
    || (0x2000 <= k <= 0x200A)
    || k == 0x2028 || k == 0x2029 || k == 0x202F || k == 0x205F
    || k == 0x3000 || k == 0xFEFF
  }

  /** `s` without its leading white space (`trimStart`). */
  function TrimStart(s: string): (r: string)
    ensures |r| <= |s|
  {
    if s != [] && IsWhiteSpace(s[0]) then TrimStart(s[1..]) else s
  }

  /** `s` without its trailing white space (`trimEnd`). */
  function TrimEnd(s: string): (r: string)
    ensures |r| <= |s|
  {
    if s != [] && IsWhiteSpace(s[|s| - 1]) then TrimEnd(s[..|s| - 1]) else s
  }

  /** Neither starts nor ends with white space. */
  predicate Trimmed(t: string) {
    t == [] || (!IsWhiteSpace(t[0]) && !IsWhiteSpace(t[|t| - 1]))
  }

  /** Nothing but white space. */
  predicate AllWhiteSpace(s: string) {
    forall k :: 0 <= k < |s| ==> IsWhiteSpace(s[k])
  }

  /** `s.trim()`: `s` without its leading and trailing white space. */
  function Trim(s: string): (r: string)
    ensures |r| <= |s|
  {
    TrimEnd(TrimStart(s))
  }

  /** `TrimStart` removes white space and nothing else: what is left is a
      suffix of `s` that does not start with white space. */
  lemma {:induction false} TrimStartRemovesWhiteSpace(s: string)
    ensures TrimStart(s) == s[|s| - |TrimStart(s)|..]
    ensures TrimStart(s) == [] || !IsWhiteSpace(TrimStart(s)[0])
    ensures forall k :: 0 <= k < |s| - |TrimStart(s)| ==> IsWhiteSpace(s[k])
  {
    if s != [] && IsWhiteSpace(s[0]) {
      TrimStartRemovesWhiteSpace(s[1..]);
      assert s[1..][|s| - 1 - |TrimStart(s)|..] == s[|s| - |TrimStart(s)|..];
      forall k | 1 <= k < |s| - |TrimStart(s)|
        ensures IsWhiteSpace(s[k])
      {
        assert s[k] == s[1..][k - 1];
      }
    }
  }

  /** `TrimEnd` removes white space and nothing else: what is left is a
      prefix of `s` that does not end with white space. */
  lemma {:induction false} TrimEndRemovesWhiteSpace(s: string)
    ensures TrimEnd(s) == s[..|TrimEnd(s)|]
    ensures TrimEnd(s) == [] || !IsWhiteSpace(TrimEnd(s)[|TrimEnd(s)| - 1])
    ensures forall k :: |TrimEnd(s)| <= k < |s| ==> IsWhiteSpace(s[k])
  {
    if s != [] && IsWhiteSpace(s[|s| - 1]) {
      var init := s[..|s| - 1];
      TrimEndRemovesWhiteSpace(init);
      assert init[..|TrimEnd(s)|] == s[..|TrimEnd(s)|];
      forall k | |TrimEnd(s)| <= k < |s| - 1
        ensures IsWhiteSpace(s[k])
      {
        assert s[k] == init[k];
      }
    }
  }

  /** What `trim` returns has no white space at either end, and is empty
      exactly when the text is nothing but white space. */
  lemma TrimIsTrimmed(s: string)
    ensures Trimmed(Trim(s))
    ensures Trim(s) == [] <==> AllWhiteSpace(s)
  {
    var t := TrimStart(s);
    var r := TrimEnd(t);
    TrimStartRemovesWhiteSpace(s);
    TrimEndRemovesWhiteSpace(t);
    if r != [] {
      assert r[0] == t[0];
    }
    if t != [] {
      assert !IsWhiteSpace(s[|s| - |t|]);
    }
    if t == [] {
      assert forall k :: 0 <= k < |s| ==> IsWhiteSpace(s[k]);
    }
  }

  /** `trim` removes white space and nothing else: what it returns stands in
      `s` right after `lead` white-space characters, and only white space
      follows it. */
  lemma TrimRemovesOnlyWhiteSpace(s: string)
    ensures var lead := |s| - |TrimStart(s)|;
            && lead + |Trim(s)| <= |s|
            && Trim(s) == s[lead..lead + |Trim(s)|]
            && (forall k :: 0 <= k < lead ==> IsWhiteSpace(s[k]))
            && (forall k :: lead + |Trim(s)| <= k < |s| ==> IsWhiteSpace(s[k]))
  {
    var t := TrimStart(s);
    var r := TrimEnd(t);
    var lead := |s| - |t|;
    TrimStartRemovesWhiteSpace(s);
    TrimEndRemovesWhiteSpace(t);
    calc {
      r;
      t[..|r|];
      s[lead..][..|r|];
      s[lead..lead + |r|];
    }
    forall k | lead + |r| <= k < |s|
      ensures IsWhiteSpace(s[k])
    {
      assert s[k] == t[k - lead];
    }
  }

  /** Trimming text that has no white space at its ends changes nothing. */
  lemma TrimTrimmed(t: string)
    requires Trimmed(t)
    ensures Trim(t) == t
  {
  }

  /** `trim` is idempotent. */
  lemma TrimIdempotent(s: string)
    ensures Trim(Trim(s)) == Trim(s)
  {
    TrimIsTrimmed(s);
    TrimTrimmed(Trim(s));
  }
}
