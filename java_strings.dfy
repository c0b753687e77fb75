/** Java's String.split for a delimiter that is a single character which is not a
    regular-expression metacharacter (such as ','), with the default limit of zero:
    when the delimiter does not occur the result is the whole string; otherwise it is
    every field between delimiters, leading and interior empty fields kept, trailing
    empty fields dropped. */
module JavaStrings {

  /** Position of the first occurrence of `d` in `s`. */
  function IndexOf(s: string, d: char): (k: nat)
    requires d in s
    ensures k < |s| && s[k] == d && d !in s[..k]
  {
    if s[0] == d then 0
    else
      var k' := IndexOf(s[1..], d);
      assert s[..k' + 1] == [s[0]] + s[1..][..k'];
      1 + k'
  }

  /** IndexOf finds the first occurrence and no other. */
  lemma IndexOfFirst(s: string, d: char, k: nat)
    requires k < |s| && s[k] == d && d !in s[..k]
    ensures IndexOf(s, d) == k
  {
    var k' := IndexOf(s, d);
    assert forall m :: 0 <= m < k ==> s[..k][m] == s[m];
    assert forall m :: 0 <= m < k' ==> s[..k'][m] == s[m];
  }

  /** Every field of `s` between occurrences of `d`, empty fields included. */
  function SplitAll(s: string, d: char): (r: seq<string>)
    ensures |r| >= 1
    decreases |s|
  {
    if d !in s then [s]
    else
      var k := IndexOf(s, d);
      [s[..k]] + SplitAll(s[k + 1..], d)
  }

  /** Removes the empty strings at the end of `ts`. */
  function DropTrailingEmpty(ts: seq<string>): (r: seq<string>)
    ensures |r| <= |ts| && r == ts[..|r|]
    ensures r == [] || r[|r| - 1] != ""
    ensures forall m :: |r| <= m < |ts| ==> ts[m] == ""
  {
    if ts == [] || ts[|ts| - 1] != "" then ts
    else DropTrailingEmpty(ts[..|ts| - 1])
  }

  /** `s.split(d)` in Java, for a plain one-character delimiter. */
  function Split(s: string, d: char): (r: seq<string>)
    ensures d !in s ==> r == [s]
    ensures d in s ==> |r| <= |SplitAll(s, d)| && r == SplitAll(s, d)[..|r|]
    ensures d in s ==> r == [] || r[|r| - 1] != ""
    ensures d in s ==> forall m :: |r| <= m < |SplitAll(s, d)| ==> SplitAll(s, d)[m] == ""
  {
    if d !in s then [s] else DropTrailingEmpty(SplitAll(s, d))
  }

  /** No field contains the delimiter. */
  lemma {:induction false} SplitAllNoDelimiter(s: string, d: char)
    ensures forall t :: t in SplitAll(s, d) ==> d !in t
    decreases |s|
  {
    if d in s {
      var k := IndexOf(s, d);
      SplitAllNoDelimiter(s[k + 1..], d);
    }
  }

  /** Split keeps every non-empty field and adds none; only empty fields at the
      end are lost. */
  lemma SplitNonEmptyFields(s: string, d: char, t: string)
    requires t != ""
    ensures t in Split(s, d) <==> t in SplitAll(s, d)
  {
    if d in s && t in SplitAll(s, d) {
      var all := SplitAll(s, d);
      var r := DropTrailingEmpty(all);
      var m :| 0 <= m < |all| && all[m] == t;
      assert m < |r| && r[m] == t;
    }
  }

  /** The fields joined back together with `d` between them. */
  function Join(ts: seq<string>, d: char): string
  {
    if ts == [] then ""
    else if |ts| == 1 then ts[0]
    else ts[0] + [d] + Join(ts[1..], d)
  }

  /** `s[i..j]` is a whole field of `s`: bounded by the ends of `s` or by `d`. */
  predicate FieldAt(s: string, d: char, i: int, j: int)
  {
    0 <= i <= j <= |s| && d !in s[i..j] &&
    (i == 0 || s[i - 1] == d) &&
    (j == |s| || s[j] == d)
  }

  /** `t` occurs in `s` as a whole field. */
  ghost predicate IsField(s: string, d: char, t: string)
  {
    exists i, j :: FieldAt(s, d, i, j) && s[i..j] == t
  }

  /** Join of a field followed by at least one more. */
  lemma JoinCons(x: string, rest: seq<string>, d: char)
    requires rest != []
    ensures Join([x] + rest, d) == x + [d] + Join(rest, d)
  {
    assert ([x] + rest)[1..] == rest;
  }

  /** Joining the fields gives back the string. */
  lemma {:induction false} JoinSplitAll(s: string, d: char)
    ensures Join(SplitAll(s, d), d) == s
    decreases |s|
  {
    if d in s {
      var k := IndexOf(s, d);
      JoinSplitAll(s[k + 1..], d);
      JoinCons(s[..k], SplitAll(s[k + 1..], d), d);
      assert s == s[..k] + [d] + s[k + 1..];
    }
  }

  /** Splitting a join of delimiter-free fields gives back the fields. */
  lemma {:induction false} SplitAllJoin(ts: seq<string>, d: char)
    requires |ts| >= 1
    requires forall t :: t in ts ==> d !in t
    ensures SplitAll(Join(ts, d), d) == ts
    decreases |ts|
  {
    if |ts| > 1 {
      var rest := Join(ts[1..], d);
      var s := ts[0] + [d] + rest;
      assert s == Join(ts, d);
      assert s[|ts[0]|] == d && s[..|ts[0]|] == ts[0];
      IndexOfFirst(s, d, |ts[0]|);
      var k := IndexOf(s, d);
      assert s[k + 1..] == rest;
      SplitAllJoin(ts[1..], d);
      assert SplitAll(s, d) == [ts[0]] + ts[1..];
    }
  }

  /** A field of the remainder after the first delimiter is a field of the whole. */
  lemma ShiftField(s: string, d: char, k: nat, i: int, j: int)
    requires k < |s| && s[k] == d
    requires FieldAt(s[k + 1..], d, i, j)
    ensures FieldAt(s, d, i + k + 1, j + k + 1)
    ensures s[i + k + 1..j + k + 1] == s[k + 1..][i..j]
  {
    assert s[i + k + 1..j + k + 1] == s[k + 1..][i..j];
  }

  /** A field of `s` is either the one before the first delimiter at `k`, or a
      field of the remainder after it. */
  lemma UnshiftField(s: string, d: char, k: nat, i: int, j: int)
    requires k < |s| && s[k] == d && d !in s[..k]
    requires FieldAt(s, d, i, j)
    ensures (i == 0 && j == k) ||
            (k < i && FieldAt(s[k + 1..], d, i - k - 1, j - k - 1) &&
             s[k + 1..][i - k - 1..j - k - 1] == s[i..j])
  {
    assert forall m :: 0 <= m < k ==> s[..k][m] == s[m];
    if i == 0 {
      assert forall m :: 0 <= m < j ==> s[i..j][m] == s[m];
      assert j == k;
    } else {
      assert k < i;
      assert s[k + 1..][i - k - 1..j - k - 1] == s[i..j];
    }
  }

  /** The fields produced by SplitAll are exactly the whole fields of `s`. */
  lemma {:induction false} SplitAllFields(s: string, d: char, t: string)
    ensures t in SplitAll(s, d) <==> IsField(s, d, t)
    decreases |s|
  {
    if d !in s {
      if t in SplitAll(s, d) {
        assert FieldAt(s, d, 0, |s|) && s[0..|s|] == t;
      }
      if IsField(s, d, t) {
        var i, j :| FieldAt(s, d, i, j) && s[i..j] == t;
        assert i == 0 && j == |s|;
        assert s[i..j] == s;
      }
    } else {
      var k := IndexOf(s, d);
      var s' := s[k + 1..];
      assert SplitAll(s, d) == [s[..k]] + SplitAll(s', d);
      SplitAllFields(s', d, t);
      if t in SplitAll(s, d) {
        if t == s[..k] {
          assert FieldAt(s, d, 0, k) && s[0..k] == t;
        } else {
          assert t in SplitAll(s', d);
          var i, j :| FieldAt(s', d, i, j) && s'[i..j] == t;
          ShiftField(s, d, k, i, j);
        }
      }
      if IsField(s, d, t) {
        var i, j :| FieldAt(s, d, i, j) && s[i..j] == t;
        UnshiftField(s, d, k, i, j);
        if i != 0 {
          assert FieldAt(s', d, i - k - 1, j - k - 1) && s'[i - k - 1..j - k - 1] == t;
        }
      }
    }
  }
}
