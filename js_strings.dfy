/**
 * The JavaScript `String.prototype` operations the router and the actions
 * rely on: `startsWith`, `endsWith`, `indexOf`, `includes`, `split` with a
 * string separator, `Array.prototype.join`, `replace` with a string pattern
 * and `trim`. Strings are sequences of characters; JavaScript's UTF-16 code
 * units are not distinguished from code points.
 */
module JsStrings {

  /** `s.startsWith(prefix)` */
  predicate StartsWith(s: string, prefix: string) {
    prefix <= s
  }

  /** `s.endsWith(suffix)` */
  predicate EndsWith(s: string, suffix: string) {
    |suffix| <= |s| && s[|s| - |suffix|..] == suffix
  }

  /** A string ends with whatever was appended to it last. */
  lemma EndsWithAppended(s: string, suffix: string)
    ensures EndsWith(s + suffix, suffix)
  {
    assert (s + suffix)[|s|..] == suffix;
  }

  /** `t` occurs in `s` starting at position `k`. */
  predicate OccursAt(s: string, t: string, k: int) {
    0 <= k && k + |t| <= |s| && s[k..k + |t|] == t
  }

  /** An occurrence that ends within the first `n` characters is one in `s[..n]`, and the other way round. */
  lemma OccursInPrefix(s: string, t: string, n: nat, k: nat)
    requires k + |t| <= n <= |s|
    ensures OccursAt(s[..n], t, k) <==> OccursAt(s, t, k)
  {
    assert s[..n][k..k + |t|] == s[k..k + |t|];
  }

  /** An occurrence at `k >= 1` is an occurrence at `k - 1` in the string without its first character. */
  lemma OccursAtTail(s: string, t: string, k: int)
    requires |s| > 0 && k >= 1
    ensures OccursAt(s, t, k) <==> OccursAt(s[1..], t, k - 1)
  {
    if k + |t| <= |s| {
      assert s[1..][k - 1..k - 1 + |t|] == s[k..k + |t|];
    }
  }

  /** `s.indexOf(t)`: the first position at which `t` occurs in `s`, or -1. */
  function IndexOf(s: string, t: string): (r: int)
    ensures r == -1 || OccursAt(s, t, r)
    ensures forall k :: 0 <= k < r ==> !OccursAt(s, t, k)
    ensures r == -1 ==> forall k :: !OccursAt(s, t, k)
    decreases |s|
  {
    if |s| < |t| then -1
    else if t <= s then
      assert s[0..|t|] == t;
      0
    else
      var i := IndexOf(s[1..], t);
      assert !OccursAt(s, t, 0) by { assert s[0..|t|] == s[..|t|]; }
      assert forall k :: 1 <= k ==> (OccursAt(s, t, k) <==> OccursAt(s[1..], t, k - 1)) by {
        forall k | 1 <= k { OccursAtTail(s, t, k); }
      }
      if i == -1 then -1 else i + 1
  }

  /** `s.includes(t)` */
  predicate Includes(s: string, t: string) {
    IndexOf(s, t) >= 0
  }

  /** A string missing one of the characters of `t` does not include `t`. */
  lemma MissingCharNotIncluded(s: string, t: string, c: char)
    requires c in t && c !in s
    ensures !Includes(s, t)
  {
    var j :| 0 <= j < |t| && t[j] == c;
    forall k | 0 <= k && k + |t| <= |s| ensures !OccursAt(s, t, k) {
      assert s[k..k + |t|][j] == s[k + j];
    }
  }

  /** An occurrence with none before it is the one `indexOf` finds. */
  lemma IndexOfIs(s: string, t: string, r: nat)
    requires OccursAt(s, t, r)
    requires forall k :: 0 <= k < r ==> !OccursAt(s, t, k)
    ensures IndexOf(s, t) == r
  {
  }

  /** A pattern whose first character does not occur in `a` is found in `a + t + b` right after `a`. */
  lemma IndexOfAfter(a: string, t: string, b: string)
    requires t != [] && t[0] !in a
    ensures IndexOf(a + t + b, t) == |a|
  {
    var s := a + t + b;
    assert s[|a|..|a| + |t|] == t;
    forall k | 0 <= k < |a| ensures !OccursAt(s, t, k) {
      assert s[k] == a[k];
      if k + |t| <= |s| {
        assert s[k..k + |t|][0] == s[k];
      }
    }
    IndexOfIs(s, t, |a|);
  }

  /** The first position of a one-character pattern in `a + [c] + b` when `a` lacks `c`. */
  lemma IndexOfChar(a: string, c: char, b: string)
    ensures IndexOf(a + [c] + b, [c]) == |a| <==> c !in a
  {
    var s := a + [c] + b;
    assert OccursAt(s, [c], |a|) by { assert s[|a|..|a| + 1] == [c]; }
    var r := IndexOf(s, [c]);
    if c !in a {
      forall k | 0 <= k < |a| ensures !OccursAt(s, [c], k) {
        assert s[k..k + 1] == [a[k]];
      }
    } else {
      var j :| 0 <= j < |a| && a[j] == c;
      assert s[j..j + 1] == [c];
      assert OccursAt(s, [c], j);
    }
  }

  /** A one-character pattern absent from `s` is not found. */
  lemma IndexOfMissingChar(s: string, c: char)
    requires c !in s
    ensures IndexOf(s, [c]) == -1
  {
    MissingCharNotIncluded(s, [c], c);
  }

  /** `s.replace(pattern, replacement)` with a string pattern: only the first occurrence is replaced. */
  function ReplaceFirst(s: string, pattern: string, replacement: string): (r: string)
    ensures !Includes(s, pattern) ==> r == s
    ensures Includes(s, pattern) ==>
      exists k :: OccursAt(s, pattern, k) && (forall j :: 0 <= j < k ==> !OccursAt(s, pattern, j))
               && r == s[..k] + replacement + s[k + |pattern|..]
  {
    var i := IndexOf(s, pattern);
    if i < 0 then s else s[..i] + replacement + s[i + |pattern|..]
  }

  /** `s.split(sep)` for a non-empty string separator. */
  function SplitOn(s: string, sep: string): (parts: seq<string>)
    requires sep != ""
    ensures |parts| >= 1
    ensures parts[0] == if Includes(s, sep) then s[..IndexOf(s, sep)] else s
    decreases |s|
  {
    var i := IndexOf(s, sep);
    if i < 0 then [s] else [s[..i]] + SplitOn(s[i + |sep|..], sep)
  }

  /** `parts.join(sep)` */
  function Join(parts: seq<string>, sep: string): string {
    if |parts| == 0 then ""
    else if |parts| == 1 then parts[0]
    else parts[0] + sep + Join(parts[1..], sep)
  }

  /** Joining with a first piece in front. */
  lemma JoinCons(p: string, ps: seq<string>, sep: string)
    requires |ps| >= 1
    ensures Join([p] + ps, sep) == p + sep + Join(ps, sep)
  {
    assert ([p] + ps)[1..] == ps;
  }

  /** A string is the text before an occurrence, the occurrence and the text after it. */
  lemma AroundOccurrence(s: string, t: string, i: int)
    requires OccursAt(s, t, i)
    ensures s == s[..i] + t + s[i + |t|..]
  {
    assert s == s[..i] + s[i..i + |t|] + s[i + |t|..];
  }

  /** Joining the pieces of a split with the same separator gives back the string. */
  lemma {:induction false} JoinSplit(s: string, sep: string)
    requires sep != ""
    ensures Join(SplitOn(s, sep), sep) == s
    decreases |s|
  {
    var i := IndexOf(s, sep);
    if i >= 0 {
      var rest := s[i + |sep|..];
      JoinSplit(rest, sep);
      JoinCons(s[..i], SplitOn(rest, sep), sep);
      AroundOccurrence(s, sep, i);
    }
  }

  /** A character that occurs at no position before `n` is not in the first `n` characters. */
  lemma CharAbsentBefore(s: string, c: char, n: nat)
    requires n <= |s|
    requires forall k :: 0 <= k < n ==> !OccursAt(s, [c], k)
    ensures c !in s[..n]
  {
    forall j | 0 <= j < n ensures s[..n][j] != c {
      assert s[j..j + 1] == [s[j]];
      assert !OccursAt(s, [c], j);
    }
  }

  /** No piece of a split on one character contains that character. */
  lemma {:induction false} SplitPiecesLackChar(s: string, c: char)
    ensures forall p :: p in SplitOn(s, [c]) ==> c !in p
    decreases |s|
  {
    var i := IndexOf(s, [c]);
    if i < 0 {
      CharAbsentBefore(s, c, |s|);
      assert s[..|s|] == s;
    } else {
      SplitPiecesLackChar(s[i + 1..], c);
      CharAbsentBefore(s, c, i);
    }
  }

  /** Splitting on a character after a first piece that lacks it. */
  lemma SplitOnCharCons(w: string, c: char, tail: string)
    requires c !in w
    ensures SplitOn(w + [c] + tail, [c]) == [w] + SplitOn(tail, [c])
  {
    var s := w + [c] + tail;
    IndexOfChar(w, c, tail);
    assert s[..|w|] == w;
    assert s[|w| + 1..] == tail;
  }

  /** Splitting a join on one character that no piece contains gives back the pieces. */
  lemma {:induction false} SplitJoinChar(ws: seq<string>, c: char)
    requires |ws| >= 1
    requires forall i :: 0 <= i < |ws| ==> c !in ws[i]
    ensures SplitOn(Join(ws, [c]), [c]) == ws
  {
    if |ws| == 1 {
      IndexOfMissingChar(ws[0], c);
    } else {
      var rest := ws[1..];
      assert ws == [ws[0]] + rest;
      JoinCons(ws[0], rest, [c]);
      SplitOnCharCons(ws[0], c, Join(rest, [c]));
      forall i | 0 <= i < |rest| ensures c !in rest[i] {
        assert rest[i] == ws[i + 1];
      }
      SplitJoinChar(rest, c);
    }
  }

  /** Joining a leading run of the pieces gives a prefix of the whole join. */
  lemma {:induction false} JoinPrefix(ws: seq<string>, m: nat, sep: string)
    requires m <= |ws|
    ensures StartsWith(Join(ws, sep), Join(ws[..m], sep))
  {
    if m == 0 {
    } else if m == 1 {
      if |ws| > 1 {
        assert ws[..1] == [ws[0]];
      }
    } else {
      JoinPrefix(ws[1..], m - 1, sep);
      assert ws[..m][1..] == ws[1..][..m - 1];
    }
  }

  /** Appending text to the last piece appends it to the join. */
  lemma {:induction false} JoinExtendLast(ws: seq<string>, t: string, sep: string)
    requires |ws| >= 1
    ensures Join(ws[..|ws| - 1] + [ws[|ws| - 1] + t], sep) == Join(ws, sep) + t
  {
    if |ws| > 1 {
      var ws' := ws[..|ws| - 1] + [ws[|ws| - 1] + t];
      JoinExtendLast(ws[1..], t, sep);
      assert ws'[1..] == ws[1..][..|ws[1..]| - 1] + [ws[1..][|ws[1..]| - 1] + t];
    }
  }

  /**
   * The characters `trim` removes: ECMAScript WhiteSpace (tab, vertical tab,
   * form feed, space, U+00A0, U+FEFF and the Unicode space separators) and
   * LineTerminator.
   */
  predicate IsWhiteSpace(c: char) {
    c == '\t' || c == '\U{B}' || c == '\U{C}' || c == ' ' || c == '\U{A0}' || c == '\U{FEFF}'
    || c == '\U{1680}' || ('\U{2000}' <= c <= '\U{200A}') || c == '\U{202F}' || c == '\U{205F}'
    || c == '\U{3000}' || IsLineTerminator(c)
  }

  /** ECMAScript LineTerminator: the characters `.` in a regular expression does not match. */
  predicate IsLineTerminator(c: char) {
    c == '\n' || c == '\r' || c == '\U{2028}' || c == '\U{2029}'
  }

  /** `s.trimStart()`: drops the leading white space and nothing else. */
  function TrimStart(s: string): (r: string)
    ensures |r| <= |s| && r == s[|s| - |r|..]
    ensures r == [] || !IsWhiteSpace(r[0])
    ensures forall i :: 0 <= i < |s| - |r| ==> IsWhiteSpace(s[i])
  {
    if s != [] && IsWhiteSpace(s[0]) then TrimStart(s[1..]) else s
  }

  /** `s.trimEnd()`: drops the trailing white space and nothing else. */
  function TrimEnd(s: string): (r: string)
    ensures |r| <= |s| && r == s[..|r|]
    ensures r == [] || !IsWhiteSpace(r[|r| - 1])
    ensures forall i :: |r| <= i < |s| ==> IsWhiteSpace(s[i])
  {
    if s != [] && IsWhiteSpace(s[|s| - 1]) then TrimEnd(s[..|s| - 1]) else s
  }

  /** `s.trim()` */
  function Trim(s: string): string {
    TrimEnd(TrimStart(s))
  }

  /** `trim` leaves nothing exactly when every character is white space. */
  lemma TrimEmptyIff(s: string)
    ensures Trim(s) == "" <==> forall i :: 0 <= i < |s| ==> IsWhiteSpace(s[i])
  {
    var a := TrimStart(s);
    if Trim(s) == "" {
      assert a == [];
    } else if forall i :: 0 <= i < |s| ==> IsWhiteSpace(s[i]) {
      TrimStartAllWhite(s);
    }
  }

  /** A string of white space only trims to nothing from the start. */
  lemma {:induction false} TrimStartAllWhite(s: string)
    requires forall i :: 0 <= i < |s| ==> IsWhiteSpace(s[i])
    ensures TrimStart(s) == []
  {
    if s != [] {
      TrimStartAllWhite(s[1..]);
    }
  }

  /** The result of `trim` starts and ends with a character that is not white space. */
  lemma TrimEnds(s: string)
    ensures Trim(s) == "" || (!IsWhiteSpace(Trim(s)[0]) && !IsWhiteSpace(Trim(s)[|Trim(s)| - 1]))
  {
    var a := TrimStart(s);
    var r := TrimEnd(a);
    if r != "" {
      assert r[0] == a[0];
    }
  }

  /** Trimming a trimmed string changes nothing. */
  lemma TrimIdempotent(s: string)
    ensures Trim(Trim(s)) == Trim(s)
  {
    var r := Trim(s);
    TrimEnds(s);
    if r != "" {
      assert TrimStart(r) == r;
      assert TrimEnd(r) == r;
    }
  }
}
