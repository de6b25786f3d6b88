/** The few Python runtime values and str built-ins the page models rely on:
    None, raised exceptions, str.split, str.join, str.strip and str.upper,
    over strings as sequences of characters. */
module Python {

  /** A value that may be None. */
  datatype Option<+T> = None | Some(value: T)

  /** The exceptions the modelled code can let escape. */
  datatype Exception =
    | AttributeError                    // a method called on None
    | IndexError                        // a list subscript past its end
    | MultipleObjectsReturned(count: nat) // QuerySet.get() found more than one row

  /** The outcome of a call: it returns a value or raises. */
  datatype Result<+T> = Ok(value: T) | Raise(exc: Exception)

  /** Python truthiness of a str-or-None argument: None and "" are false. */
  predicate Truthy(s: Option<string>) {
    s.Some? && s.value != ""
  }

  /** Index of the first occurrence of c in s. */
  function IndexOf(s: string, c: char): (r: nat)
    requires c in s
    ensures r < |s| && s[r] == c
    ensures c !in s[..r]
  {
    if s[0] == c then 0 else
      var k := IndexOf(s[1..], c);
      assert s[1..][..k] == s[1..k + 1];
      1 + k
  }

  /** Any position holding c with no c before it is the one IndexOf finds. */
  lemma {:induction false} IndexOfIsFirst(s: string, c: char, k: nat)
    requires k < |s| && s[k] == c && c !in s[..k]
    ensures IndexOf(s, c) == k
  {
    if k > 0 {
      assert s[..k][0] == s[0];
      assert s[1..][..k - 1] == s[..k][1..];
      IndexOfIsFirst(s[1..], c, k - 1);
    }
  }

  /** str.split(sep) for a one-character separator: every occurrence of sep
      cuts, so n separators give n + 1 parts, some possibly empty. */
  function Split(s: string, sep: char): (parts: seq<string>)
    ensures |parts| >= 1
  {
    if s == [] then [[]]
    else
      var rest := Split(s[1..], sep);
      if s[0] == sep then [[]] + rest
      else [[s[0]] + rest[0]] + rest[1..]
  }

  /** sep.join(parts). */
  function Join(parts: seq<string>, sep: char): string
  {
    if |parts| == 0 then ""
    else if |parts| == 1 then parts[0]
    else parts[0] + [sep] + Join(parts[1..], sep)
  }

  /** No part holds the separator, and there is a single part exactly when
      the text holds no separator. */
  lemma {:induction false} SplitParts(s: string, sep: char)
    ensures var parts := Split(s, sep);
      && (forall k :: 0 <= k < |parts| ==> sep !in parts[k])
      && (|parts| == 1 <==> sep !in s)
  {
    if s != [] {
      SplitParts(s[1..], sep);
      var rest := Split(s[1..], sep);
      assert s == [s[0]] + s[1..];
      if s[0] != sep {
        var parts := Split(s, sep);
        forall k | 0 <= k < |parts| ensures sep !in parts[k] {
          if k > 0 { assert parts[k] == rest[k]; }
        }
      }
    }
  }

  /** A text without the separator is its own single part. */
  lemma {:induction false} SplitNoSep(s: string, sep: char)
    requires sep !in s
    ensures Split(s, sep) == [s]
  {
    if s != [] {
      SplitNoSep(s[1..], sep);
      assert s == [s[0]] + s[1..];
    }
  }

  /** The text before a first separator is the first part, and the rest
      splits on. */
  lemma {:induction false} SplitAt(p: string, t: string, sep: char)
    requires sep !in p
    ensures Split(p + [sep] + t, sep) == [p] + Split(t, sep)
  {
    var s := p + [sep] + t;
    if p == [] {
      assert s[1..] == t;
    } else {
      assert s[1..] == p[1..] + [sep] + t;
      SplitAt(p[1..], t, sep);
      assert [p[0]] + p[1..] == p;
    }
  }

  /** Joining the parts of a split gives back the original text. */
  lemma {:induction false} JoinSplit(s: string, sep: char)
    ensures Join(Split(s, sep), sep) == s
  {
    if s != [] {
      var rest := Split(s[1..], sep);
      JoinSplit(s[1..], sep);
      if s[0] == sep {
        assert ([[]] + rest)[1..] == rest;
      } else {
        var parts := [[s[0]] + rest[0]] + rest[1..];
        if |rest| > 1 {
          assert parts[1..] == rest[1..];
          assert Join(rest, sep) == rest[0] + [sep] + Join(rest[1..], sep);
        }
        assert s == [s[0]] + s[1..];
      }
    }
  }

  /** Splitting a join of separator-free parts gives back the parts. */
  lemma {:induction false} SplitJoin(parts: seq<string>, sep: char)
    requires |parts| >= 1
    requires forall k :: 0 <= k < |parts| ==> sep !in parts[k]
    ensures Split(Join(parts, sep), sep) == parts
  {
    if |parts| == 1 {
      SplitNoSep(parts[0], sep);
    } else {
      SplitAt(parts[0], Join(parts[1..], sep), sep);
      SplitJoin(parts[1..], sep);
      assert parts == [parts[0]] + parts[1..];
    }
  }

  /** The last part of a split is whatever follows the last separator. */
  lemma {:induction false} SplitLast(a: string, b: string, sep: char)
    requires sep !in b
    ensures var parts := Split(a + [sep] + b, sep); parts[|parts| - 1] == b
  {
    var s := a + [sep] + b;
    if a == [] {
      assert s[1..] == b;
      SplitNoSep(b, sep);
    } else {
      assert s[1..] == a[1..] + [sep] + b;
      SplitLast(a[1..], b, sep);
      SplitParts(s[1..], sep);
      assert sep in s[1..] by { assert s[1..][|a| - 1] == sep; }
    }
  }

  /** The prefix of s before its first character that is not c (str.lstrip(c)). */
  function StripLeft(s: string, c: char): (r: string)
    ensures |r| <= |s| && r == s[|s| - |r|..]
    ensures forall i :: 0 <= i < |s| - |r| ==> s[i] == c
    ensures |r| > 0 ==> r[0] != c
  {
    if |s| > 0 && s[0] == c then StripLeft(s[1..], c) else s
  }

  /** s without its trailing run of c (str.rstrip(c)). */
  function StripRight(s: string, c: char): (r: string)
    ensures |r| <= |s| && r == s[..|r|]
    ensures forall i :: |r| <= i < |s| ==> s[i] == c
    ensures |r| > 0 ==> r[|r| - 1] != c
  {
    if |s| > 0 && s[|s| - 1] == c then StripRight(s[..|s| - 1], c) else s
  }

  /** str.strip(c): every leading and trailing c removed, inner ones kept. */
  function Strip(s: string, c: char): (r: string)
    ensures |r| > 0 ==> r[0] != c && r[|r| - 1] != c
    ensures r == [] <==> forall i :: 0 <= i < |s| ==> s[i] == c
  {
    var l := StripLeft(s, c);
    var r := StripRight(l, c);
    assert |r| > 0 ==> r[0] == l[0];
    assert r == [] ==> l == [];
    assert |l| > 0 ==> l[0] == s[|s| - |l|];
    r
  }

  /** StripLeft removes exactly a leading run of c. */
  lemma {:induction false} StripLeftRun(pre: string, t: string, c: char)
    requires forall i :: 0 <= i < |pre| ==> pre[i] == c
    requires |t| > 0 ==> t[0] != c
    ensures StripLeft(pre + t, c) == t
  {
    if pre == [] {
      assert pre + t == t;
    } else {
      assert (pre + t)[1..] == pre[1..] + t;
      StripLeftRun(pre[1..], t, c);
    }
  }

  /** StripRight removes exactly a trailing run of c. */
  lemma {:induction false} StripRightRun(t: string, post: string, c: char)
    requires forall i :: 0 <= i < |post| ==> post[i] == c
    requires |t| > 0 ==> t[|t| - 1] != c
    ensures StripRight(t + post, c) == t
  {
    if post == [] {
      assert t + post == t;
    } else {
      var p := post[..|post| - 1];
      assert (t + post)[..|t + post| - 1] == t + p;
      StripRightRun(t, p, c);
    }
  }

  /** Strip keeps exactly the middle: for a string made of a run of c, a part
      that neither starts nor ends with c, and another run of c, the result
      is that part. */
  lemma StripMiddle(pre: string, m: string, post: string, c: char)
    requires forall i :: 0 <= i < |pre| ==> pre[i] == c
    requires forall i :: 0 <= i < |post| ==> post[i] == c
    requires |m| > 0 ==> m[0] != c && m[|m| - 1] != c
    ensures Strip(pre + m + post, c) == m
  {
    var s := pre + m + post;
    if m == [] {
      assert forall i :: 0 <= i < |s| ==> s[i] == c by {
        forall i | 0 <= i < |s| ensures s[i] == c {
          if i >= |pre| { assert s[i] == post[i - |pre|]; }
        }
      }
    } else {
      assert s == pre + (m + post);
      StripLeftRun(pre, m + post, c);
      StripRightRun(m, post, c);
    }
  }

  /** Stripping twice is stripping once. */
  lemma StripIdempotent(s: string, c: char)
    ensures Strip(Strip(s, c), c) == Strip(s, c)
  {
    StripMiddle([], Strip(s, c), [], c);
    assert [] + Strip(s, c) + [] == Strip(s, c);
  }

  /** ASCII upper-casing of one character. */
  function UpperChar(ch: char): char {
    if 'a' <= ch <= 'z' then (ch as int - 'a' as int + 'A' as int) as char else ch
  }

  /** str.upper() restricted to ASCII text. */
  function Upper(s: string): (r: string)
    ensures |r| == |s|
    ensures forall i :: 0 <= i < |s| ==> r[i] == UpperChar(s[i])
  {
    if s == [] then [] else [UpperChar(s[0])] + Upper(s[1..])
  }
}
