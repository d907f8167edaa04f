/**
 * The PHP string functions the colour codecs rely on, on ASCII text:
 * strpos with a one-character needle, explode on a one-character
 * delimiter, implode, strtolower and strtoupper.
 */
module PhpStrings {

  /** The character does not occur in `s`. */
  predicate Lacks(s: string, c: char) {
    forall i :: 0 <= i < |s| ==> s[i] != c
  }

  /**
   * strpos(s, c): the position of the first `c` in `s`, or |s| when there is
   * none (where PHP returns FALSE).
   */
  function IndexOf(s: string, c: char): (i: nat)
    ensures i <= |s|
    ensures i < |s| ==> s[i] == c
    ensures Lacks(s[..i], c)
    ensures i == |s| <==> Lacks(s, c)
  {
    if s == [] then 0
    else if s[0] == c then 0
    else
      var j := IndexOf(s[1..], c);
      assert s[..1 + j] == [s[0]] + s[1..][..j];
      1 + j
  }

  lemma IndexOfAppend(a: string, b: string, c: char)
    requires Lacks(a, c)
    ensures IndexOf(a + b, c) == |a| + IndexOf(b, c)
  {
    if a == [] {
      assert a + b == b;
    } else {
      assert (a + b)[1..] == a[1..] + b;
      IndexOfAppend(a[1..], b, c);
    }
  }

  /** Number of occurrences of `c` in `s`. */
  function Count(s: string, c: char): nat {
    if s == [] then 0 else (if s[0] == c then 1 else 0) + Count(s[1..], c)
  }

  lemma CountLacks(s: string, c: char)
    requires Lacks(s, c)
    ensures Count(s, c) == 0
  {
    if s != [] {
      CountLacks(s[1..], c);
    }
  }

  lemma CountAppend(a: string, b: string, c: char)
    ensures Count(a + b, c) == Count(a, c) + Count(b, c)
  {
    if a == [] {
      assert a + b == b;
    } else {
      assert (a + b)[1..] == a[1..] + b;
      CountAppend(a[1..], b, c);
    }
  }

  /**
   * explode(sep, s) for a one-character separator: the pieces between the
   * separators, always at least one, each free of the separator, and one
   * more than there are separators.
   */
  function Split(s: string, sep: char): (parts: seq<string>)
    ensures |parts| >= 1
    ensures |parts| == Count(s, sep) + 1
    ensures forall k :: 0 <= k < |parts| ==> Lacks(parts[k], sep)
    decreases |s|
  {
    var i := IndexOf(s, sep);
    if i == |s| then
      CountLacks(s, sep);
      [s]
    else
      var rest := Split(s[i + 1..], sep);
      CountAround(s, i, sep);
      [s[..i]] + rest
  }

  /** The separators of a text are its first one and those after it. */
  lemma CountAround(s: string, i: nat, sep: char)
    requires i < |s| && s[i] == sep && Lacks(s[..i], sep)
    ensures Count(s, sep) == 1 + Count(s[i + 1..], sep)
  {
    assert s == s[..i] + ([sep] + s[i + 1..]);
    CountAppend(s[..i], [sep] + s[i + 1..], sep);
    CountLacks(s[..i], sep);
    assert ([sep] + s[i + 1..])[1..] == s[i + 1..];
  }

  /** Splitting text that starts with a separator-free piece and a separator. */
  lemma SplitCons(a: string, sep: char, rest: string)
    requires Lacks(a, sep)
    ensures Split(a + [sep] + rest, sep) == [a] + Split(rest, sep)
  {
    var s := a + [sep] + rest;
    IndexOfAppend(a, [sep] + rest, sep);
    assert s == a + ([sep] + rest);
    assert IndexOf(s, sep) == |a|;
    assert s[..|a|] == a;
    assert s[|a| + 1..] == rest;
  }

  /**
   * implode(sep, parts): nothing for no parts, and otherwise all the parts
   * with one separator between each two.
   */
  function Join(sep: string, parts: seq<string>): (s: string)
    ensures |parts| == 0 ==> s == ""
    ensures |parts| == 1 ==> s == parts[0]
    ensures |parts| >= 1 ==> |s| == TotalLength(parts) + (|parts| - 1) * |sep|
  {
    if |parts| == 0 then ""
    else if |parts| == 1 then parts[0]
    else
      var rest := Join(sep, parts[1..]);
      assert (|parts| - 2) * |sep| + |sep| == (|parts| - 1) * |sep|;
      parts[0] + sep + rest
  }

  /** The lengths of the parts added up. */
  function TotalLength(parts: seq<string>): nat {
    if |parts| == 0 then 0 else |parts[0]| + TotalLength(parts[1..])
  }

  /** Every piece after the first, with `pad` in front of it. */
  function PadTail(pad: string, parts: seq<string>): (r: seq<string>)
    requires |parts| >= 1
    ensures |r| == |parts| && r[0] == parts[0]
    ensures forall k :: 1 <= k < |parts| ==> r[k] == pad + parts[k]
  {
    [parts[0]] + Prefixed(pad, parts[1..])
  }

  /** Every piece with `pad` in front of it. */
  function Prefixed(pad: string, parts: seq<string>): (r: seq<string>)
    ensures |r| == |parts|
    ensures forall k :: 0 <= k < |parts| ==> r[k] == pad + parts[k]
  {
    if parts == [] then [] else [pad + parts[0]] + Prefixed(pad, parts[1..])
  }

  /**
   * explode(',', implode(', ', parts)) gives the parts back with the space
   * of the glue still in front of every part after the first.
   */
  lemma {:induction false} SplitJoin(parts: seq<string>)
    requires |parts| >= 1
    requires forall k :: 0 <= k < |parts| ==> Lacks(parts[k], ',')
    ensures Split(Join(", ", parts), ',') == PadTail(" ", parts)
    decreases |parts|
  {
    if |parts| > 1 {
      var tail := [" " + parts[1]] + parts[2..];
      JoinPadFirst(parts[1..]);
      assert " " + Join(", ", parts[1..]) == Join(", ", tail);
      assert Join(", ", parts) == parts[0] + [','] + Join(", ", tail);
      forall k | 0 <= k < |tail| ensures Lacks(tail[k], ',') {
        if k == 0 {
          assert tail[0] == " " + parts[1];
          assert forall i :: 0 <= i < |parts[1]| ==> tail[0][i + 1] == parts[1][i];
        } else {
          assert tail[k] == parts[k + 1];
        }
      }
      SplitJoin(tail);
      SplitCons(parts[0], ',', Join(", ", tail));
    }
  }

  /** explode(",", implode(",", parts)) gives the parts back exactly. */
  lemma {:induction false} SplitJoinComma(parts: seq<string>)
    requires |parts| >= 1
    requires forall k :: 0 <= k < |parts| ==> Lacks(parts[k], ',')
    ensures Split(Join(",", parts), ',') == parts
    decreases |parts|
  {
    if |parts| > 1 {
      var rest := parts[1..];
      assert forall k :: 0 <= k < |rest| ==> rest[k] == parts[k + 1];
      SplitJoinComma(rest);
      assert Join(",", parts) == parts[0] + [','] + Join(",", rest);
      SplitCons(parts[0], ',', Join(",", rest));
      assert [parts[0]] + rest == parts;
    }
  }

    lemma JoinPadFirst(parts: seq<string>)
    requires |parts| >= 1
    ensures " " + Join(", ", parts) == Join(", ", [" " + parts[0]] + parts[1..])
  {
    var q := [" " + parts[0]] + parts[1..];
    assert q[0] == " " + parts[0] && q[1..] == parts[1..];
    if |parts| > 1 {
      var rest := Join(", ", parts[1..]);
      JoinCons(parts, rest);
      JoinCons(q, rest);
      PadGlue(parts[0], rest);
    }
  }

  lemma PadGlue(first: string, rest: string)
    ensures " " + (first + ", " + rest) == " " + first + ", " + rest
  {
  }

  lemma JoinCons(parts: seq<string>, rest: string)
    requires |parts| > 1 && rest == Join(", ", parts[1..])
    ensures Join(", ", parts) == parts[0] + ", " + rest
  {
  }

  /** ASCII letters are the only characters that change case. */
  function LowerChar(c: char): char {
    if 'A' <= c <= 'Z' then (c as int + 32) as char else c
  }

  function UpperChar(c: char): char {
    if 'a' <= c <= 'z' then (c as int - 32) as char else c
  }

  /** strtolower: same length, each character lowered. */
  function ToLower(s: string): (r: string)
    ensures |r| == |s|
    ensures forall i :: 0 <= i < |s| ==> r[i] == LowerChar(s[i])
  {
    seq(|s|, i requires 0 <= i < |s| => LowerChar(s[i]))
  }

  /** strtoupper: same length, each character raised. */
  function ToUpper(s: string): (r: string)
    ensures |r| == |s|
    ensures forall i :: 0 <= i < |s| ==> r[i] == UpperChar(s[i])
  {
    seq(|s|, i requires 0 <= i < |s| => UpperChar(s[i]))
  }

  lemma ToUpperAppend(a: string, b: string)
    ensures ToUpper(a + b) == ToUpper(a) + ToUpper(b)
  {
    assert forall i :: 0 <= i < |a| ==> (a + b)[i] == a[i];
  }
}
