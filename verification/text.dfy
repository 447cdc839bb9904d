/** The string primitives the roster handlers use: `String.prototype.trim`,
    `split('\n')`, `toLowerCase` and `includes`. */
module Text {

  /** The characters `trim` removes: ECMAScript WhiteSpace (tab, vertical tab,
      form feed, space, no-break space, byte order mark and the other space
      separators) and LineTerminator (LF, CR, LS, PS). */
  predicate IsSpace(c: char)
  {
    || c == '\t' || c == '\U{000B}' || c == '\U{000C}' || c == ' '
    || c == '\U{00A0}' || c == '\U{FEFF}' || c == '\U{1680}'
    || ('\U{2000}' <= c <= '\U{200A}')
    || c == '\U{202F}' || c == '\U{205F}' || c == '\U{3000}'
    || c == '\n' || c == '\r' || c == '\U{2028}' || c == '\U{2029}'
  }

  predicate AllSpace(s: string)
  {
    forall k :: 0 <= k < |s| ==> IsSpace(s[k])
  }

  /** Neither end of `s` is a space character. */
  predicate IsTrimmed(s: string)
  {
    s == [] || (!IsSpace(s[0]) && !IsSpace(s[|s| - 1]))
  }

  /** Number of leading space characters. */
  function Lead(s: string): (n: nat)
    ensures n <= |s|
    ensures forall k :: 0 <= k < n ==> IsSpace(s[k])
    ensures n < |s| ==> !IsSpace(s[n])
  {
    if s == [] || !IsSpace(s[0]) then 0 else 1 + Lead(s[1..])
  }

  /** Number of trailing space characters. */
  function Trail(s: string): (n: nat)
    ensures n <= |s|
    ensures forall k :: |s| - n <= k < |s| ==> IsSpace(s[k])
    ensures n < |s| ==> !IsSpace(s[|s| - 1 - n])
  {
    if s == [] || !IsSpace(s[|s| - 1]) then 0 else 1 + Trail(s[..|s| - 1])
  }

  /** `s` with its leading and trailing space characters removed: the unique
      slice of `s` that has only spaces outside it and no space at either of
      its ends. */
  function Trim(s: string): (r: string)
    ensures IsTrimmed(r)
    ensures exists i, j :: 0 <= i <= j <= |s| && r == s[i..j]
                           && AllSpace(s[..i]) && AllSpace(s[j..])
    ensures r == [] <==> AllSpace(s)
  {
    var i := Lead(s);
    if i == |s| then
      assert s[..i] == s && s[i..i] == [];
      []
    else
      var j := |s| - Trail(s);
      assert !AllSpace(s) by { assert !IsSpace(s[i]); }
      s[i..j]
  }

  /** A trimmed string is its own trim. */
  lemma TrimmedIsFixed(s: string)
    requires IsTrimmed(s)
    ensures Trim(s) == s
  {
    if s != [] {
      assert Lead(s) == 0;
      assert Trail(s) == 0;
    }
  }

  /** `trim` is idempotent. */
  lemma TrimIdempotent(s: string)
    ensures Trim(Trim(s)) == Trim(s)
  {
    TrimmedIsFixed(Trim(s));
  }

  /** ASCII upper case folded to lower case; every other character unchanged. */
  function LowerChar(c: char): char
  {
    if 'A' <= c <= 'Z' then (c as int - 'A' as int + 'a' as int) as char else c
  }

  function Lower(s: string): (r: string)
    ensures |r| == |s|
    ensures forall k :: 0 <= k < |s| ==> r[k] == LowerChar(s[k])
  {
    seq(|s|, k requires 0 <= k < |s| => LowerChar(s[k]))
  }

  /** `t` occurs in `s` at position `i`. */
  predicate OccursAt(s: string, t: string, i: int)
  {
    0 <= i && i + |t| <= |s| && s[i..i + |t|] == t
  }

  /** `s.includes(t)`, scanning from the left. */
  predicate Contains(s: string, t: string)
    decreases |s|
  {
    (|t| <= |s| && s[..|t|] == t) || (s != [] && Contains(s[1..], t))
  }

  /** An occurrence at position `i` is found by the scan. */
  lemma {:induction false} OccursThenContains(s: string, t: string, i: int)
    requires OccursAt(s, t, i)
    ensures Contains(s, t)
    decreases i
  {
    if i > 0 {
      assert s[1..][i - 1..i - 1 + |t|] == s[i..i + |t|];
      OccursThenContains(s[1..], t, i - 1);
    }
  }

  /** Whatever the scan finds is an occurrence. */
  lemma {:induction false} ContainsThenOccurs(s: string, t: string) returns (i: int)
    requires Contains(s, t)
    ensures OccursAt(s, t, i)
    decreases |s|
  {
    if |t| <= |s| && s[..|t|] == t {
      i := 0;
    } else {
      var k := ContainsThenOccurs(s[1..], t);
      assert s[1..][k..k + |t|] == s[k + 1..k + 1 + |t|];
      i := k + 1;
    }
  }

  /** The scan finds `t` exactly when `t` occurs somewhere in `s`. */
  lemma ContainsIff(s: string, t: string)
    ensures Contains(s, t) <==> exists i :: OccursAt(s, t, i)
  {
    if Contains(s, t) {
      var i := ContainsThenOccurs(s, t);
    }
    if exists i :: OccursAt(s, t, i) {
      var i :| OccursAt(s, t, i);
      OccursThenContains(s, t, i);
    }
  }

  /** Every string includes the empty string. */
  lemma ContainsEmpty(s: string)
    ensures Contains(s, [])
  {
  }

  /** `s.split('\n')`: the pieces between line feeds, at least one. */
  function SplitLines(s: string): (r: seq<string>)
    ensures |r| >= 1
    ensures forall i :: 0 <= i < |r| ==> '\n' !in r[i]
  {
    if s == [] then [[]]
    else
      var rest := SplitLines(s[1..]);
      if s[0] == '\n' then [[]] + rest
      else [[s[0]] + rest[0]] + rest[1..]
  }

  /** `lines.join('\n')`. */
  function JoinLines(lines: seq<string>): string
    requires |lines| >= 1
  {
    if |lines| == 1 then lines[0] else lines[0] + "\n" + JoinLines(lines[1..])
  }

  /** Joining the pieces of a split gives back the text. */
  lemma {:induction false} JoinSplit(s: string)
    ensures JoinLines(SplitLines(s)) == s
  {
    if s != [] {
      JoinSplit(s[1..]);
      var rest := SplitLines(s[1..]);
      if s[0] == '\n' {
        assert JoinLines([[]] + rest) == "\n" + JoinLines(rest) by {
          assert ([[]] + rest)[1..] == rest;
        }
      } else {
        JoinHead(s[0], rest);
      }
    }
  }

  /** Prepending a character to a join prepends it to the first piece. */
  lemma {:induction false} JoinHead(c: char, lines: seq<string>)
    requires |lines| >= 1
    ensures JoinLines([[c] + lines[0]] + lines[1..]) == [c] + JoinLines(lines)
  {
    var l2 := [[c] + lines[0]] + lines[1..];
    if |lines| > 1 {
      assert l2[1..] == lines[1..];
    }
  }

  /** Splitting a join of line-feed-free pieces gives back the pieces. */
  lemma {:induction false} SplitJoin(lines: seq<string>)
    requires |lines| >= 1
    requires forall i :: 0 <= i < |lines| ==> '\n' !in lines[i]
    ensures SplitLines(JoinLines(lines)) == lines
    decreases |lines|, |lines[0]|
  {
    if |lines[0]| == 0 {
      if |lines| == 1 {
      } else {
        SplitJoin(lines[1..]);
        var j := JoinLines(lines);
        assert j == "\n" + JoinLines(lines[1..]);
        assert j[1..] == JoinLines(lines[1..]);
        assert lines == [[]] + lines[1..];
      }
    } else {
      var c := lines[0][0];
      var shorter := [lines[0][1..]] + lines[1..];
      assert forall i :: 0 <= i < |shorter| ==> '\n' !in shorter[i] by {
        forall i | 0 <= i < |shorter| ensures '\n' !in shorter[i] {
          if i == 0 {
            assert forall k :: 0 <= k < |lines[0][1..]| ==> lines[0][1..][k] == lines[0][k + 1];
          } else {
            assert shorter[i] == lines[i];
          }
        }
      }
      SplitJoin(shorter);
      assert shorter[1..] == lines[1..];
      assert lines[0] == [c] + shorter[0];
      JoinHead(c, shorter);
      assert [[c] + shorter[0]] + shorter[1..] == lines;
      var j := JoinLines(lines);
      assert j == [c] + JoinLines(shorter);
      assert j[1..] == JoinLines(shorter);
      assert c != '\n' by { assert lines[0][0] in lines[0]; }
    }
  }

  /** The pieces of `a + "\n" + b` are the pieces of `a` followed by those of `b`. */
  lemma SplitAtLineFeed(a: string, b: string)
    ensures SplitLines(a + "\n" + b) == SplitLines(a) + SplitLines(b)
  {
    var la, lb := SplitLines(a), SplitLines(b);
    JoinSplit(a);
    JoinSplit(b);
    JoinConcat(la, lb);
    SplitJoin(la + lb);
  }

  lemma {:induction false} JoinConcat(a: seq<string>, b: seq<string>)
    requires |a| >= 1 && |b| >= 1
    ensures JoinLines(a + b) == JoinLines(a) + "\n" + JoinLines(b)
  {
    if |a| == 1 {
      assert (a + b)[1..] == b;
    } else {
      assert (a + b)[1..] == a[1..] + b;
      JoinConcat(a[1..], b);
    }
  }
}
