/** The string helpers the proxy takes from Go's `strings`, on ASCII text. */
module Text {

  datatype Option<+T> = None | Some(value: T)

  function LowerChar(c: char): char {
    if 'A' <= c <= 'Z' then c - 'A' + 'a' else c
  }

  function Lower(s: string): (r: string)
    ensures |r| == |s|
    ensures forall i | 0 <= i < |s| :: r[i] == LowerChar(s[i])
  {
    seq(|s|, i requires 0 <= i < |s| => LowerChar(s[i]))
  }

  predicate IsLower(s: string) {
    Lower(s) == s
  }

  lemma LowerIdempotent(s: string)
    ensures Lower(Lower(s)) == Lower(s)
  {
    assert forall i | 0 <= i < |s| :: LowerChar(LowerChar(s[i])) == LowerChar(s[i]);
  }

  function Digit(d: nat): char
    requires d < 10
  {
    '0' + (d as char)
  }

  predicate Contains(s: string, c: char) {
    exists i | 0 <= i < |s| :: s[i] == c
  }

  /** Number of occurrences of `c`. */
  function Count(s: string, c: char): (n: nat)
    ensures n <= |s|
  {
    if s == "" then 0
    else Count(s[..|s| - 1], c) + (if s[|s| - 1] == c then 1 else 0)
  }

  lemma {:induction false} CountZeroIffAbsent(s: string, c: char)
    ensures Count(s, c) == 0 <==> !Contains(s, c)
  {
    if s != "" {
      var init := s[..|s| - 1];
      CountZeroIffAbsent(init, c);
      if Contains(init, c) {
        var i :| 0 <= i < |init| && init[i] == c;
        assert s[i] == c;
      }
      assert forall i | 0 <= i < |init| :: s[i] == init[i];
    }
  }

  lemma {:induction false} CountsDisjoint(s: string, c: char, d: char)
    requires c != d
    ensures Count(s, c) + Count(s, d) <= |s|
  {
    if s != "" {
      CountsDisjoint(s[..|s| - 1], c, d);
    }
  }

  /** Byte-wise lexicographic order, Go's `<` on strings. */
  predicate LexLess(a: string, b: string) {
    if b == "" then false
    else if a == "" then true
    else if a[0] != b[0] then a[0] < b[0]
    else LexLess(a[1..], b[1..])
  }

  lemma {:induction false} LexLessTrichotomy(a: string, b: string)
    ensures !(LexLess(a, b) && LexLess(b, a))
    ensures a != b ==> LexLess(a, b) || LexLess(b, a)
    ensures a == b ==> !LexLess(a, b)
  {
    if a != "" && b != "" {
      LexLessTrichotomy(a[1..], b[1..]);
      assert a == [a[0]] + a[1..] && b == [b[0]] + b[1..];
    }
  }

  lemma {:induction false} LexLessTransitive(a: string, b: string, c: string)
    requires LexLess(a, b) && LexLess(b, c)
    ensures LexLess(a, c)
  {
    if a != "" && a[0] == b[0] == c[0] {
      LexLessTransitive(a[1..], b[1..], c[1..]);
    }
  }

  /** `a` and `b` agree up to `k`, where `a` ends first or has the smaller character. */
  predicate ComesFirstAt(a: string, b: string, k: nat) {
    k <= |a| && k < |b| && a[..k] == b[..k] && (k == |a| || a[k] < b[k])
  }

  lemma {:induction false} LexLessMeaning(a: string, b: string)
    ensures LexLess(a, b) <==> exists k: nat :: ComesFirstAt(a, b, k)
  {
    if b == "" {
    } else if a == "" || a[0] != b[0] {
      assert ComesFirstAt(a, b, 0) <==> LexLess(a, b);
      assert forall k: nat | k > 0 && ComesFirstAt(a, b, k) :: a[..k][0] == b[..k][0];
    } else {
      LexLessMeaning(a[1..], b[1..]);
      if k: nat :| ComesFirstAt(a[1..], b[1..], k) {
        assert a[..k + 1] == [a[0]] + a[1..][..k] && b[..k + 1] == [b[0]] + b[1..][..k];
        assert ComesFirstAt(a, b, k + 1);
      }
      if k: nat :| ComesFirstAt(a, b, k) {
        assert k > 0;
        assert a[1..][..k - 1] == a[..k][1..] && b[1..][..k - 1] == b[..k][1..];
        assert ComesFirstAt(a[1..], b[1..], k - 1);
      }
    }
  }

  /** `strings.Split` on a one-character separator. */
  function Split(s: string, c: char): (parts: seq<string>)
    ensures |parts| >= 1
    ensures forall i | 0 <= i < |parts| :: !Contains(parts[i], c)
    ensures |parts| == 1 <==> !Contains(s, c)
    ensures |parts| == 1 ==> parts[0] == s
  {
    if s == "" then [""]
    else
      var rest := Split(s[1..], c);
      if s[0] == c then [""] + rest else [[s[0]] + rest[0]] + rest[1..]
  }

  /** `strings.SplitN(s, sep, 2)` for a separator that occurs: what is before and after its first occurrence. */
  function Cut(s: string, c: char): (r: (string, string))
    requires Contains(s, c)
    ensures s == r.0 + [c] + r.1 && !Contains(r.0, c)
  {
    if s[0] == c then ("", s[1..])
    else
      assert Contains(s[1..], c) by {
        var i :| 0 <= i < |s| && s[i] == c;
        assert s[1..][i - 1] == c;
      }
      var (a, b) := Cut(s[1..], c);
      ([s[0]] + a, b)
  }

  lemma {:induction false} CutUnique(a: string, b: string, c: char)
    requires !Contains(a, c)
    ensures Contains(a + [c] + b, c) && Cut(a + [c] + b, c) == (a, b)
  {
    var s := a + [c] + b;
    assert s[|a|] == c;
    if a == "" {
      assert s[1..] == b;
    } else {
      assert forall i | 0 <= i < |a[1..]| :: a[1..][i] == a[i + 1];
      CutUnique(a[1..], b, c);
      assert s[1..] == a[1..] + [c] + b && s[0] == a[0] != c;
      assert [a[0]] + a[1..] == a;
    }
  }

  /** `strings.Join` */
  function Join(parts: seq<string>, c: char): string
    requires |parts| >= 1
  {
    if |parts| == 1 then parts[0] else parts[0] + [c] + Join(parts[1..], c)
  }

  lemma {:induction false} SplitHead(a: string, b: string, c: char)
    requires !Contains(a, c)
    ensures Split(a + [c] + b, c) == [a] + Split(b, c)
  {
    var s := a + [c] + b;
    if a == "" {
      assert s[1..] == b;
    } else {
      assert forall i | 0 <= i < |a[1..]| :: a[1..][i] == a[i + 1];
      SplitHead(a[1..], b, c);
      assert s[1..] == a[1..] + [c] + b && s[0] == a[0] != c;
      assert [a[0]] + a[1..] == a;
    }
  }

  lemma SplitOnce(a: string, b: string, c: char)
    requires !Contains(a, c) && !Contains(b, c)
    ensures Split(a + [c] + b, c) == [a, b]
  {
    SplitHead(a, b, c);
    assert Split(b, c) == [b];
  }

  lemma {:induction false} SplitJoin(parts: seq<string>, c: char)
    requires |parts| >= 1 && forall i | 0 <= i < |parts| :: !Contains(parts[i], c)
    ensures Split(Join(parts, c), c) == parts
  {
    if |parts| > 1 {
      SplitJoin(parts[1..], c);
      SplitHead(parts[0], Join(parts[1..], c), c);
    } else {
      assert Split(parts[0], c) == [parts[0]];
    }
  }

  lemma ConcatLacks(a: string, b: string, c: char)
    ensures Contains(a + b, c) <==> Contains(a, c) || Contains(b, c)
  {
    if Contains(a, c) {
      var i :| 0 <= i < |a| && a[i] == c;
      assert (a + b)[i] == c;
    }
    if Contains(b, c) {
      var i :| 0 <= i < |b| && b[i] == c;
      assert (a + b)[|a| + i] == c;
    }
  }

  predicate IsSpace(c: char) {
    c == ' ' || '\t' <= c <= '\r'
  }

  function TrimLeft(s: string): string {
    if s != "" && IsSpace(s[0]) then TrimLeft(s[1..]) else s
  }

  function TrimRight(s: string): string {
    if s != "" && IsSpace(s[|s| - 1]) then TrimRight(s[..|s| - 1]) else s
  }

  /** `strings.TrimSpace` */
  function TrimSpace(s: string): string {
    TrimRight(TrimLeft(s))
  }

  lemma TrimmedStays(s: string)
    requires s != "" && !IsSpace(s[0]) && !IsSpace(s[|s| - 1])
    ensures TrimSpace(s) == s
  {
  }

  lemma {:induction false} TrimLeftMeaning(s: string)
    ensures var t := TrimLeft(s);
            && |t| <= |s| && t == s[|s| - |t|..]
            && (t != "" ==> !IsSpace(t[0]))
            && TrimLeft(t) == t
            && (t == "" ==> forall i | 0 <= i < |s| :: IsSpace(s[i]))
  {
    if s != "" && IsSpace(s[0]) {
      TrimLeftMeaning(s[1..]);
    }
  }

  lemma {:induction false} TrimLeftPrefix(a: string, b: string)
    requires TrimLeft(a) != ""
    ensures TrimLeft(a + b) == TrimLeft(a) + b
  {
    if IsSpace(a[0]) {
      TrimLeftPrefix(a[1..], b);
      assert (a + b)[1..] == a[1..] + b;
    }
  }

  lemma {:induction false} TrimRightBlank(s: string)
    ensures TrimRight(s) == "" ==> forall i | 0 <= i < |s| :: IsSpace(s[i])
  {
    if s != "" && IsSpace(s[|s| - 1]) {
      TrimRightBlank(s[..|s| - 1]);
    }
  }

  lemma TrimSpaceBlank(s: string)
    requires TrimSpace(s) == ""
    ensures forall i | 0 <= i < |s| :: IsSpace(s[i])
  {
    TrimLeftMeaning(s);
    TrimRightBlank(TrimLeft(s));
  }

  lemma {:induction false} TrimRightMeaning(s: string)
    ensures var t := TrimRight(s); |t| <= |s| && t == s[..|t|] && (t != "" ==> !IsSpace(t[|t| - 1]))
  {
    if s != "" && IsSpace(s[|s| - 1]) {
      TrimRightMeaning(s[..|s| - 1]);
    }
  }

  lemma TrimTwice(s: string)
    ensures TrimSpace(TrimSpace(s)) == TrimSpace(s)
  {
    TrimLeftMeaning(s);
    TrimRightMeaning(TrimLeft(s));
    if TrimSpace(s) != "" {
      TrimmedStays(TrimSpace(s));
    }
  }

  /** The six ASCII characters Go takes for white space. */
  lemma SpaceMeaning(c: char)
    ensures IsSpace(c) <==> c as int in {0x20, 0x09, 0x0A, 0x0B, 0x0C, 0x0D}
  {
  }

  lemma {:induction false} LeftIsSpace(s: string)
    ensures |TrimLeft(s)| <= |s| && forall c | c in s[..|s| - |TrimLeft(s)|] :: IsSpace(c)
  {
    TrimLeftMeaning(s);
    if s != "" && IsSpace(s[0]) {
      LeftIsSpace(s[1..]);
      TrimLeftMeaning(s[1..]);
      assert s[..|s| - |TrimLeft(s)|] == [s[0]] + s[1..][..|s[1..]| - |TrimLeft(s[1..])|];
    }
  }

  lemma {:induction false} RightIsSpace(s: string)
    ensures |TrimRight(s)| <= |s| && forall c | c in s[|TrimRight(s)|..] :: IsSpace(c)
  {
    TrimRightMeaning(s);
    if s != "" && IsSpace(s[|s| - 1]) {
      var init := s[..|s| - 1];
      RightIsSpace(init);
      assert s[|TrimRight(s)|..] == init[|TrimRight(init)|..] + [s[|s| - 1]];
    }
  }

  lemma TrimmedEnds(s: string)
    ensures var t := TrimSpace(s); t != "" ==> !IsSpace(t[0]) && !IsSpace(t[|t| - 1])
  {
    TrimLeftMeaning(s);
    TrimRightMeaning(TrimLeft(s));
  }

  /** Trimming takes all white space off both ends, and nothing else. */
  lemma TrimSpaceMeaning(s: string) returns (front: string, back: string)
    ensures s == front + TrimSpace(s) + back
    ensures (forall c | c in front :: IsSpace(c)) && (forall c | c in back :: IsSpace(c))
    ensures var t := TrimSpace(s); t != "" ==> !IsSpace(t[0]) && !IsSpace(t[|t| - 1])
  {
    TrimmedEnds(s);
    front := SpaceInFront(s);
    back := SpaceBehind(TrimLeft(s));
  }

  lemma SpaceInFront(s: string) returns (front: string)
    ensures s == front + TrimLeft(s) && forall c | c in front :: IsSpace(c)
  {
    TrimLeftMeaning(s);
    LeftIsSpace(s);
    front := s[..|s| - |TrimLeft(s)|];
  }

  lemma SpaceBehind(s: string) returns (back: string)
    ensures s == TrimRight(s) + back && forall c | c in back :: IsSpace(c)
  {
    TrimRightMeaning(s);
    RightIsSpace(s);
    back := s[|TrimRight(s)|..];
  }
}
