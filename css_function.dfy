/**
 * The CSS function-call splitter and builder shared by the rgb() and hsl()
 * codecs (AbstractCssFunctionProcessor.php).
 */
module CssFunctions {
  import opened Wrappers
  import opened PhpStrings
  import opened PhpNumbers

  /** The parsed call: the lowered name and the raw argument texts. */
  datatype CssFunction = CssFunction(name: string, arguments: seq<string>)

  /**
   * PHP 8 substr(s, start, length) for 0 <= start <= |s|: a non-negative
   * length is cut short at the end of the text, a negative one leaves out
   * that many characters at the end, and nothing is left when the end falls
   * at or before the start.
   */
  function Substr(s: string, start: nat, length: int): (r: string)
    requires start <= |s|
    ensures |r| <= |s| - start
    ensures length >= 0 && start + length <= |s| ==> r == s[start..start + length]
    ensures length < 0 && start <= |s| + length ==> r == s[start..|s| + length]
    ensures length < 0 && |s| + length <= start ==> r == ""
  {
    var end := if length >= 0 then (if start + length <= |s| then start + length else |s|) else |s| + length;
    if end <= start then "" else s[start..end]
  }

  /** Cutting into a text after a prefix is cutting into the rest. */
  lemma SubstrShift(a: string, t: string, k: nat, length: int)
    requires k <= |t|
    ensures Substr(a + t, |a| + k, length) == Substr(t, k, length)
  {
    var s := a + t;
    var end := if length >= 0 then (if |a| + k + length <= |s| then |a| + k + length else |s|) else |s| + length;
    if end > |a| + k {
      assert s[|a| + k..end] == t[k..end - |a|];
    }
  }

  /**
   * parseCssColorFunction(): None when there is no '('. Otherwise the name
   * is the lowered text before the first '(' and the arguments are the
   * text from there to the first ')' split on ','. A missing ')' is PHP's
   * FALSE, read as position 0. The arguments are not trimmed.
   */
  function ParseCssColorFunction(s: string): (r: Option<CssFunction>)
    ensures r.None? <==> Lacks(s, '(')
    ensures r.Some? ==> |r.value.arguments| >= 1
    ensures r.Some? ==> |r.value.name| == IndexOf(s, '(') && Lacks(r.value.name, '(')
    ensures r.Some? ==> r.value.name == ToLower(s[..IndexOf(s, '(')])
    ensures r.Some? ==> forall k :: 0 <= k < |r.value.arguments| ==> Lacks(r.value.arguments[k], ',')
  {
    var firstBrace := IndexOf(s, '(');
    if firstBrace == |s| then None
    else
      LowerLacks(s[..firstBrace], '(');
      Some(CssFunction(ToLower(s[..firstBrace]), Split(ArgumentsOf(s, firstBrace), ',')))
  }

  /**
   * The text between the '(' at `firstBrace` and the first ')', with PHP's
   * FALSE for a missing ')' read as position 0.
   */
  function ArgumentsOf(s: string, firstBrace: nat): string
    requires firstBrace < |s|
  {
    var found := IndexOf(s, ')');
    var lastBrace := if found == |s| then 0 else found;
    Substr(s, firstBrace + 1, lastBrace - firstBrace - 1)
  }

  /** Lowering letters brings in no brace. */
  lemma LowerLacks(s: string, c: char)
    requires Lacks(s, c) && LowerChar(c) == c && !('a' <= c <= 'z')
    ensures Lacks(ToLower(s), c)
  {
    var r := ToLower(s);
    forall i | 0 <= i < |r| ensures r[i] != c {
      assert r[i] == LowerChar(s[i]);
    }
  }

  /** formatColorFunction(): name, '(', the arguments glued with ", ", ')'. */
  function FormatColorFunction(name: string, args: seq<string>): (s: string)
    ensures |s| >= |name| + 2 && s[..|name|] == name && s[|name|] == '(' && s[|s| - 1] == ')'
  {
    var s := name + "(" + Join(", ", args) + ")";
    assert s[..|name|] == name;
    s
  }

  /**
   * The arguments as numbers, the way PHP reads a numeric string handed to
   * arithmetic or round(): None as soon as one is not a numeral.
   */
  function ParseAll(args: seq<string>): (r: Option<seq<real>>)
    ensures r.Some? ==> |r.value| == |args|
  {
    if args == [] then Some([])
    else
      match ParseNumeral(args[0])
      case None => None
      case Some(v) =>
        match ParseAll(args[1..])
        case None => None
        case Some(vs) => Some([v] + vs)
  }

  /** One argument that is not a numeral spoils the whole list. */
  lemma {:induction false} ParseAllFails(args: seq<string>, i: nat)
    requires i < |args| && ParseNumeral(args[i]).None?
    ensures ParseAll(args) == None
  {
    if i == 0 {
      ParseAllHeadFails(args);
    } else {
      var rest := args[1..];
      assert ParseNumeral(rest[i - 1]).None? by { assert rest[i - 1] == args[i]; }
      ParseAllFails(rest, i - 1);
      ParseAllRestFails(args);
    }
  }

  lemma ParseAllHeadFails(args: seq<string>)
    requires args != [] && ParseNumeral(args[0]).None?
    ensures ParseAll(args) == None
  {
  }

  lemma ParseAllRestFails(args: seq<string>)
    requires args != [] && ParseAll(args[1..]) == None
    ensures ParseAll(args) == None
  {
  }

  /** Every argument reads as the matching value exactly when the whole list does. */
  lemma {:induction false} ParseAllEach(args: seq<string>, vs: seq<real>)
    requires |args| == |vs|
    requires forall k :: 0 <= k < |args| ==> ParseNumeral(args[k]) == Some(vs[k])
    ensures ParseAll(args) == Some(vs)
    decreases |args|
  {
    if args != [] {
      ParseAllEach(args[1..], vs[1..]);
      assert [vs[0]] + vs[1..] == vs;
    }
  }

  /** The space the ", " glue leaves in front of an argument does not change its reading. */
  lemma ReadPadded(args: seq<string>, vs: seq<real>)
    requires |args| >= 1 && |args| == |vs|
    requires forall k :: 0 <= k < |args| ==> ParseNumeral(args[k]) == Some(vs[k])
    ensures ParseAll(PadTail(" ", args)) == Some(vs)
  {
    var p := PadTail(" ", args);
    forall k | 0 <= k < |p|
      ensures ParseNumeral(p[k]) == Some(vs[k])
    {
      if k > 0 {
        ParseNumeralSpace(args[k]);
      }
    }
    ParseAllEach(p, vs);
  }

  // ---------------------------------------------------------------------
  // Properties.

  /** A written number has no comma and no brace, so it can stand as an argument. */
  lemma NumeralLacksBraces(s: string)
    requires NumeralChars(s)
    ensures Lacks(s, ',') && Lacks(s, '(') && Lacks(s, ')')
  {
  }

  lemma JoinLacks(sep: string, parts: seq<string>, c: char)
    requires Lacks(sep, c)
    requires forall k :: 0 <= k < |parts| ==> Lacks(parts[k], c)
    ensures Lacks(Join(sep, parts), c)
    decreases |parts|
  {
    if |parts| > 1 {
      JoinLacks(sep, parts[1..], c);
      var rest := Join(sep, parts[1..]);
      assert Join(sep, parts) == parts[0] + sep + rest;
      Lacks3(parts[0], sep, rest, c);
    }
  }

  lemma Lacks3(a: string, b: string, d: string, c: char)
    requires Lacks(a, c) && Lacks(b, c) && Lacks(d, c)
    ensures Lacks(a + b + d, c)
  {
    var s := a + b + d;
    forall i | 0 <= i < |s| ensures s[i] != c {
      if i < |a| {
        assert s[i] == a[i];
      } else if i < |a| + |b| {
        assert s[i] == b[i - |a|];
      } else {
        assert s[i] == d[i - |a| - |b|];
      }
    }
  }

  /**
   * Parsing a formatted call gives the lowered name back, and the arguments
   * with the space of the ", " glue kept in front of all but the first
   * (arguments are not trimmed).
   */
  lemma ParseFormat(name: string, args: seq<string>)
    requires Lacks(name, '(') && Lacks(name, ')')
    requires |args| >= 1
    requires forall k :: 0 <= k < |args| ==> Lacks(args[k], ',') && Lacks(args[k], '(') && Lacks(args[k], ')')
    ensures ParseCssColorFunction(FormatColorFunction(name, args)) == Some(CssFunction(ToLower(name), PadTail(" ", args)))
  {
    var j := Join(", ", args);
    JoinLacks(", ", args, ')');
    CallText(name, j);
    ParseAfterName(name, "(" + j + ")");
    ArgumentOfCall(|name|, j);
    SplitJoin(args);
  }

  /** A call written with bare commas splits into exactly its arguments. */
  lemma ParseCommaCall(name: string, args: seq<string>)
    requires Lacks(name, '(') && Lacks(name, ')')
    requires |args| >= 1
    requires forall k :: 0 <= k < |args| ==> Lacks(args[k], ',') && Lacks(args[k], '(') && Lacks(args[k], ')')
    ensures ParseCssColorFunction(name + "(" + Join(",", args) + ")") == Some(CssFunction(ToLower(name), args))
  {
    var j := Join(",", args);
    JoinLacks(",", args, ')');
    CallText(name, j);
    ParseAfterName(name, "(" + j + ")");
    ArgumentOfCall(|name|, j);
    SplitJoinComma(args);
  }

  lemma CallText(name: string, j: string)
    ensures name + "(" + j + ")" == name + ("(" + j + ")")
  {
  }

  /** The argument text of "(" + j + ")" is j when j has no ')'. */
  lemma ArgumentOfCall(n: nat, j: string)
    requires Lacks(j, ')')
    ensures ArgumentText(n, "(" + j + ")") == j
  {
    var t := "(" + j + ")";
    assert t == "(" + (j + ")");
    IndexOfAppend("(", j + ")", ')');
    IndexOfAppend(j, ")", ')');
    assert t[1..1 + |j|] == j;
  }

  /**
   * The argument text of a call whose '(' comes after a name of length n and
   * whose remaining text is t (t starting with that '(').
   */
  function ArgumentText(n: nat, t: string): (r: string)
    requires |t| >= 1
  {
    var found := IndexOf(t, ')');
    var length: int := if found == |t| then -1 - n else found - 1;
    Substr(t, 1, length)
  }

  /** How a call splits when the name has neither brace. */
  lemma ParseAfterName(a: string, t: string)
    requires Lacks(a, '(') && Lacks(a, ')')
    requires |t| >= 1 && t[0] == '('
    ensures ParseCssColorFunction(a + t) == Some(CssFunction(ToLower(a), Split(ArgumentText(|a|, t), ',')))
  {
    NameAt(a, t);
    ArgumentsAfterName(a, t);
  }

  /** The first '(' of a + t is the one t starts with. */
  lemma NameAt(a: string, t: string)
    requires Lacks(a, '(')
    requires |t| >= 1 && t[0] == '('
    ensures IndexOf(a + t, '(') == |a| && (a + t)[..|a|] == a
  {
    IndexOfAppend(a, t, '(');
  }

  /** The argument text of a + t is found in t alone. */
  lemma ArgumentsAfterName(a: string, t: string)
    requires Lacks(a, ')')
    requires |t| >= 1
    ensures ArgumentsOf(a + t, |a|) == ArgumentText(|a|, t)
  {
    IndexOfAppend(a, t, ')');
    var found := IndexOf(t, ')');
    var length: int := if found == |t| then -1 - (|a| as int) else (found as int) - 1;
    SubstrShift(a, t, 1, length);
  }

  /**
   * The case of the name does not matter: two names that lower to the same
   * text, followed by the same call text, parse alike.
   */
  lemma ParseCaseInsensitive(a: string, b: string, t: string)
    requires ToLower(a) == ToLower(b)
    requires Lacks(a, '(') && Lacks(a, ')') && Lacks(b, '(') && Lacks(b, ')')
    requires |t| >= 1 && t[0] == '('
    ensures ParseCssColorFunction(a + t) == ParseCssColorFunction(b + t)
  {
    ParseAfterName(a, t);
    ParseAfterName(b, t);
  }
}
