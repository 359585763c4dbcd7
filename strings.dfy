/** The Python string operations the workflow relies on: `sub in s`,
    `s.endswith(x)`, `s.strip()` and `s.lower()`, and the yes/no gate
    built from the last two. */
module Strings {

  /** `sub in s` on Python strings: `sub` occurs at some position of `s`. */
  predicate Contains(s: string, sub: string)
  {
    exists i | 0 <= i <= |s| - |sub| :: OccursAt(s, sub, i)
  }

  /** `sub` is the slice of `s` that starts at index `i`. */
  predicate OccursAt(s: string, sub: string, i: int)
  {
    0 <= i <= |s| - |sub| && s[i..i + |sub|] == sub
  }

  /** A string that occurs in `s` occurs in every string that starts with `s`. */
  lemma ContainsExtended(s: string, q: string, sub: string)
    requires Contains(s, sub)
    ensures Contains(s + q, sub)
  {
    var i :| 0 <= i <= |s| - |sub| && OccursAt(s, sub, i);
    var t := s + q;
    assert t[i..i + |sub|] == s[i..i + |sub|];
    assert OccursAt(t, sub, i);
  }

  /** `s.endswith(suffix)`: exact, case-sensitive comparison of the tail. */
  predicate EndsWith(s: string, suffix: string)
  {
    |suffix| <= |s| && s[|s| - |suffix|..] == suffix
  }

  /** `EndsWith` holds exactly of the strings that are something followed by the suffix. */
  lemma EndsWithIff(s: string, suffix: string)
    ensures EndsWith(s, suffix) <==> exists p :: s == p + suffix
  {
    if EndsWith(s, suffix) {
      assert s == s[..|s| - |suffix|] + suffix;
    }
    forall p | s == p + suffix
      ensures EndsWith(s, suffix)
    {
      assert s[|s| - |suffix|..] == suffix;
    }
  }

  /** Python's `str.isspace` for one character: the characters `str.strip()`
      removes when called without arguments. */
  predicate IsSpace(c: char)
  {
    var n := c as int;
    (0x09 <= n <= 0x0D) || (0x1C <= n <= 0x20) || n == 0x85 || n == 0xA0 ||
    n == 0x1680 || (0x2000 <= n <= 0x200A) || n == 0x2028 || n == 0x2029 ||
    n == 0x202F || n == 0x205F || n == 0x3000
  }

  predicate AllSpace(s: string)
  {
    forall i | 0 <= i < |s| :: IsSpace(s[i])
  }

  /** `s.lstrip()`. */
  function TrimStart(s: string): string
  {
    if |s| > 0 && IsSpace(s[0]) then TrimStart(s[1..]) else s
  }

  /** `s.rstrip()`. */
  function TrimEnd(s: string): string
  {
    if |s| > 0 && IsSpace(s[|s| - 1]) then TrimEnd(s[..|s| - 1]) else s
  }

  /** `s.strip()`. */
  function Strip(s: string): string
  {
    TrimEnd(TrimStart(s))
  }

  /** Lower-casing of one character, on the ASCII letters. */
  function LowerChar(c: char): char
  {
    if 'A' <= c <= 'Z' then (c as int + 32) as char else c
  }

  /** `s.lower()`, character by character. */
  function Lower(s: string): (r: string)
    ensures |r| == |s|
  {
    seq(|s|, i requires 0 <= i < |s| => LowerChar(s[i]))
  }

  /** The answer to "Do you want to delete processed folders? (yes/no)"
      counts as yes when `answer.strip().lower() == 'yes'`. */
  predicate Confirmed(answer: string)
  {
    Lower(Strip(answer)) == "yes"
  }

  lemma {:induction false} TrimStartShape(s: string) returns (k: nat)
    ensures k <= |s| && AllSpace(s[..k]) && TrimStart(s) == s[k..]
    ensures k < |s| ==> !IsSpace(s[k])
    decreases |s|
  {
    if |s| > 0 && IsSpace(s[0]) {
      var k' := TrimStartShape(s[1..]);
      k := k' + 1;
      assert s[1..][k'..] == s[k..];
      forall i | 0 <= i < k ensures IsSpace(s[..k][i]) {
        if i > 0 { assert s[..k][i] == s[1..][..k'][i - 1]; }
      }
    } else {
      k := 0;
    }
  }

  lemma {:induction false} TrimEndShape(s: string) returns (k: nat)
    ensures k <= |s| && AllSpace(s[k..]) && TrimEnd(s) == s[..k]
    ensures 0 < k ==> !IsSpace(s[k - 1])
    decreases |s|
  {
    if |s| > 0 && IsSpace(s[|s| - 1]) {
      var t := s[..|s| - 1];
      k := TrimEndShape(t);
      assert t[..k] == s[..k];
      forall i | 0 <= i < |s| - k ensures IsSpace(s[k..][i]) {
        if k + i < |s| - 1 { assert s[k..][i] == t[k..][i]; }
      }
    } else {
      k := |s|;
    }
  }

  /** Leading white space before a part that starts with a non-space is
      exactly what `lstrip` removes. */
  lemma {:induction false} TrimStartExact(w: string, m: string)
    requires AllSpace(w)
    requires |m| > 0 && !IsSpace(m[0])
    ensures TrimStart(w + m) == m
    decreases |w|
  {
    if |w| > 0 {
      assert (w + m)[1..] == w[1..] + m;
      TrimStartExact(w[1..], m);
    } else {
      assert w + m == m;
    }
  }

  lemma {:induction false} TrimEndExact(m: string, w: string)
    requires AllSpace(w)
    requires |m| > 0 && !IsSpace(m[|m| - 1])
    ensures TrimEnd(m + w) == m
    decreases |w|
  {
    if |w| > 0 {
      assert (m + w)[..|m + w| - 1] == m + w[..|w| - 1];
      TrimEndExact(m, w[..|w| - 1]);
    } else {
      assert m + w == m;
    }
  }

  /** The yes gate without strip/lower: an answer is "yes" exactly when it is
      white space, then the three letters y, e, s in any case, then white space. */
  lemma ConfirmedIff(answer: string)
    ensures Confirmed(answer) <==>
      exists i | 0 <= i <= |answer| - 3 ::
        AllSpace(answer[..i]) && AllSpace(answer[i + 3..]) && Lower(answer[i..i + 3]) == "yes"
  {
    if Confirmed(answer) {
      var k := TrimStartShape(answer);
      var t := answer[k..];
      var j := TrimEndShape(t);
      assert Strip(answer) == t[..j];
      assert |t[..j]| == 3;
      assert t[..j] == answer[k..k + 3];
      assert t[j..] == answer[k + 3..];
    }
    forall i | 0 <= i <= |answer| - 3 &&
        AllSpace(answer[..i]) && AllSpace(answer[i + 3..]) && Lower(answer[i..i + 3]) == "yes"
      ensures Confirmed(answer)
    {
      var m := answer[i..i + 3];
      assert Lower(m)[0] == LowerChar(m[0]) == 'y';
      assert Lower(m)[2] == LowerChar(m[2]) == 's';
      assert answer == answer[..i] + (m + answer[i + 3..]);
      TrimStartExact(answer[..i], m + answer[i + 3..]);
      TrimEndExact(m, answer[i + 3..]);
    }
  }

  /** Case and surrounding white space do not matter to the gate. */
  lemma ConfirmedExamples()
    ensures Confirmed("yes") && Confirmed("  YES\n") && Confirmed("Yes")
  {
    ConfirmedIff("  YES\n");
  }

  /** Anything but the whole word is refused, including no answer at all. */
  lemma RefusedExamples()
    ensures !Confirmed("y") && !Confirmed("no") && !Confirmed("") && !Confirmed("ye s")
  {
    ConfirmedIff("ye s");
  }
}
