/** The PHP string primitives the core relies on, over strings as sequences of
    characters: strpos for one character, mb_substr, ASCII lower-casing, trim,
    explode on one separator, PHP truthiness and the loose `==` of two strings. */
module Text {
  import opened Wrappers

  /** strpos / mb_strpos for a single character: the first index of `c`, or
      None where PHP returns FALSE. */
  function Find(s: string, c: char): (r: Option<nat>)
    ensures r.None? <==> c !in s
    ensures r.Some? ==> r.value < |s| && s[r.value] == c && c !in s[..r.value]
  {
    if |s| == 0 then None
    else if s[0] == c then Some(0)
    else match Find(s[1..], c)
      case None => None
      case Some(k) => assert s[1..][..k] == s[1..k + 1]; Some(k + 1)
  }

  /** strpos($s, $c) === 0: the string starts with `c`. */
  predicate StartsWith(s: string, c: char)
  {
    |s| > 0 && s[0] == c
  }

  /** mb_substr($s, $start): everything from `start` on, empty past the end. */
  function From(s: string, start: nat): (r: string)
    ensures start <= |s| ==> r == s[start..]
    ensures start >= |s| ==> r == ""
  {
    if start <= |s| then s[start..] else ""
  }

  /** mb_substr($s, 0, $start) followed by mb_substr($s, $start) is the
      whole string, and the part from `start` is `start` characters shorter. */
  lemma FromSplits(s: string, start: nat)
    requires start <= |s|
    ensures s[..start] + From(s, start) == s
    ensures |From(s, start)| == |s| - start
  {
  }

  /** mb_substr($s, $start, $len): a non-negative `len` takes at most `len`
      characters; a negative one leaves out `-len` characters at the end of
      the string, which can leave nothing. */
  function SubstrLen(s: string, start: nat, len: int): (r: string)
    ensures |r| <= |s|
    ensures start <= |s| && 0 <= len && start + len <= |s| ==> r == s[start..start + len]
    ensures start <= |s| && len < 0 && start <= |s| + len ==> r == s[start..|s| + len]
    ensures start <= |s| && len < 0 && |s| + len < start ==> r == ""
  {
    if start >= |s| then ""
    else
      var end := if len >= 0 then (if start + len <= |s| then start + len else |s|)
                 else (if |s| + len >= start then |s| + len else start);
      s[start..end]
  }

  /** ASCII lower-casing; multibyte case mapping is not part of this model. */
  function LowerChar(c: char): char
  {
    if 'A' <= c <= 'Z' then (c as int + 32) as char else c
  }

  predicate IsUpper(c: char)
  {
    'A' <= c <= 'Z'
  }

  /** mb_strtolower over ASCII: no upper-case letter is left, every other
      character is kept, and each upper-case letter becomes its lower-case
      partner. */
  function Lower(s: string): (r: string)
    ensures |r| == |s|
    ensures forall i :: 0 <= i < |r| ==> !IsUpper(r[i])
    ensures forall i :: 0 <= i < |s| && !IsUpper(s[i]) ==> r[i] == s[i]
    ensures forall i :: 0 <= i < |s| && IsUpper(s[i]) ==> 'a' <= r[i] <= 'z' && r[i] as int - s[i] as int == 'a' as int - 'A' as int
    ensures forall i :: 0 <= i < |s| ==> r[i] == LowerChar(s[i])
  {
    seq(|s|, i requires 0 <= i < |s| => LowerChar(s[i]))
  }

  /** Lower-casing twice is lower-casing once. */
  lemma LowerIdempotent(s: string)
    ensures Lower(Lower(s)) == Lower(s)
  {
  }

  /** Two strings that differ only in the case of their letters lower-case
      to the same string, so a static route segment matches in any case. */
  lemma LowerIgnoresCase()
    ensures Lower("Blog") == Lower("BLOG") == "blog"
  {
  }

  /** The characters PHP's trim() strips by default. */
  predicate IsSpace(c: char)
  {
    c == ' ' || c == '\t' || c == '\n' || c == '\r' || c == '\0' || c == '\U{000B}'
  }

  /** Every character is white space. */
  predicate AllSpace(t: string)
  {
    forall i :: 0 <= i < |t| ==> IsSpace(t[i])
  }

  function TrimLeft(s: string): (r: string)
    ensures |r| <= |s| && r == s[|s| - |r|..]
    ensures |r| > 0 ==> !IsSpace(r[0])
    ensures |s| > 0 && !IsSpace(s[0]) ==> r == s
  {
    if |s| > 0 && IsSpace(s[0]) then TrimLeft(s[1..]) else s
  }

  function TrimRight(s: string): (r: string)
    ensures |r| <= |s| && r == s[..|r|]
    ensures |r| > 0 ==> !IsSpace(r[|r| - 1])
    ensures |s| > 0 && !IsSpace(s[|s| - 1]) ==> r == s
  {
    if |s| > 0 && IsSpace(s[|s| - 1]) then TrimRight(s[..|s| - 1]) else s
  }

  /** ltrim() removes white space only: everything before its result is
      white space. */
  lemma {:induction false} TrimLeftSpace(s: string)
    ensures AllSpace(s[..|s| - |TrimLeft(s)|])
    decreases |s|
  {
    if |s| > 0 && IsSpace(s[0]) {
      var r := TrimLeft(s[1..]);
      TrimLeftSpace(s[1..]);
      SpacePrefixStep(s, |s| - 1 - |r|);
    } else {
      assert s[..0] == [];
    }
  }

  /** rtrim() removes white space only: everything after its result is
      white space. */
  lemma {:induction false} TrimRightSpace(s: string)
    ensures AllSpace(s[|TrimRight(s)|..])
    decreases |s|
  {
    if |s| > 0 && IsSpace(s[|s| - 1]) {
      var r := TrimRight(s[..|s| - 1]);
      TrimRightSpace(s[..|s| - 1]);
      SpaceSuffixStep(s, |r|);
    } else {
      assert s[|s|..] == [];
    }
  }

  /** A white-space character in front of a white-space prefix. */
  lemma SpacePrefixStep(s: string, k: nat)
    requires |s| > 0 && IsSpace(s[0]) && k < |s| && AllSpace(s[1..][..k])
    ensures AllSpace(s[..k + 1])
  {
    var p, q := s[..k + 1], s[1..][..k];
    forall i | 0 <= i < |p| ensures IsSpace(p[i]) {
      if i > 0 { assert p[i] == q[i - 1]; }
    }
  }

  /** A white-space character after a white-space suffix. */
  lemma SpaceSuffixStep(s: string, k: nat)
    requires |s| > 0 && IsSpace(s[|s| - 1]) && k <= |s| - 1 && AllSpace(s[..|s| - 1][k..])
    ensures AllSpace(s[k..])
  {
    var p, q := s[k..], s[..|s| - 1][k..];
    forall i | 0 <= i < |p| ensures IsSpace(p[i]) {
      if i < |q| { assert p[i] == q[i]; }
    }
  }

  /** A string PHP's trim() leaves as it is. */
  predicate Trimmed(s: string)
  {
    |s| == 0 || (!IsSpace(s[0]) && !IsSpace(s[|s| - 1]))
  }

  /** trim(): the string without its leading and trailing white space. */
  function Trim(s: string): (r: string)
    ensures Trimmed(r)
    ensures Trimmed(s) ==> r == s
  {
    TrimRight(TrimLeft(s))
  }

  /** trim() drops a leading blank and keeps a string without white space. */
  lemma TrimPaddedExample()
    ensures Trim(" post") == "post" && Trim("blog") == "blog"
  {
    TrimDropsBlank();
    TrimKeepsWord();
  }

  lemma TrimDropsBlank()
    ensures Trim(" post") == "post"
  {
    var padded, word := " post", "post";
    assert TrimLeft(padded) == word by {
      assert padded[0] == ' ' && padded[1..] == word && word[0] == 'p';
    }
    assert TrimRight(word) == word by {
      assert word[|word| - 1] == 't';
    }
  }

  lemma TrimKeepsWord()
    ensures Trim("blog") == "blog"
  {
    var word := "blog";
    assert Trimmed(word) by {
      assert word[0] == 'b' && word[|word| - 1] == 'g';
    }
  }

  /** trim() removes white space only: its result is a slice of the input
      with nothing but white space before and after it. */
  lemma TrimSlice(s: string)
    ensures exists k :: TrimmedAt(s, Trim(s), k)
  {
    var l := TrimLeft(s);
    TrimLeftSpace(s);
    TrimRightSpace(l);
    var r := TrimRight(l);
    TrimBothEnds(s, l, r);
    assert Trim(s) == r;
    assert TrimmedAt(s, Trim(s), |s| - |l|);
  }

  /** `r` is the slice of `s` at `k`, with only white space around it. */
  predicate TrimmedAt(s: string, r: string, k: nat)
  {
    && k + |r| <= |s| && r == s[k..k + |r|]
    && (forall i :: 0 <= i < k ==> IsSpace(s[i]))
    && (forall i :: k + |r| <= i < |s| ==> IsSpace(s[i]))
  }

  /** A white-space prefix cut off and then a white-space suffix cut off
      leave a slice with only white space around it. */
  lemma TrimBothEnds(s: string, l: string, r: string)
    requires |l| <= |s| && l == s[|s| - |l|..] && AllSpace(s[..|s| - |l|])
    requires |r| <= |l| && r == l[..|r|] && AllSpace(l[|r|..])
    ensures TrimmedAt(s, r, |s| - |l|)
  {
    var k := |s| - |l|;
    forall i | 0 <= i < k ensures IsSpace(s[i]) {
      assert s[i] == s[..k][i];
    }
    forall i | k + |r| <= i < |s| ensures IsSpace(s[i]) {
      assert s[i] == l[|r|..][i - k - |r|];
    }
  }

  /** Trimming adds no character, so a character the string lacks stays out. */
  lemma TrimWithout(s: string, c: char)
    requires c !in s
    ensures c !in Trim(s)
  {
    var l := TrimLeft(s);
    assert c !in l;
    var r := TrimRight(l);
    assert c !in r;
  }

  /** explode($sep, $s): the pieces between the separators, empty ones
      included, so there is always at least one piece. */
  function Explode(s: string, sep: char): (r: seq<string>)
    ensures |r| >= 1
    decreases |s|
  {
    if |s| == 0 then [""]
    else
      var rest := Explode(s[1..], sep);
      if s[0] == sep then [""] + rest
      else [[s[0]] + rest[0]] + rest[1..]
  }

  /** No piece of explode() holds the separator. */
  lemma {:induction false} ExplodePieces(s: string, sep: char)
    ensures forall i :: 0 <= i < |Explode(s, sep)| ==> sep !in Explode(s, sep)[i]
    decreases |s|
  {
    if |s| > 0 {
      ExplodePieces(s[1..], sep);
      var rest := Explode(s[1..], sep);
      assert forall k :: 0 <= k < |rest| ==> sep !in rest[k];
      var r := Explode(s, sep);
      if s[0] == sep {
        forall i | 0 <= i < |r| ensures sep !in r[i] {
          if i > 0 { assert r[i] == rest[i - 1]; }
        }
      } else {
        forall i | 0 <= i < |r| ensures sep !in r[i] {
          if i == 0 {
            assert r[0] == [s[0]] + rest[0];
          } else {
            assert r[i] == rest[i];
          }
        }
      }
    }
  }

  /** implode($sep, $pieces), the inverse of Explode. */
  function Implode(pieces: seq<string>, sep: char): string
    requires |pieces| >= 1
  {
    if |pieces| == 1 then pieces[0] else pieces[0] + [sep] + Implode(pieces[1..], sep)
  }

  lemma {:induction false} ImplodeExplode(s: string, sep: char)
    ensures Implode(Explode(s, sep), sep) == s
    decreases |s|
  {
    if |s| > 0 {
      var rest := Explode(s[1..], sep);
      ImplodeExplode(s[1..], sep);
      if s[0] != sep {
        var r := Explode(s, sep);
        if |rest| == 1 {
          assert r == [[s[0]] + rest[0]];
        } else {
          assert r[1..] == rest[1..];
          assert Implode(rest, sep) == rest[0] + [sep] + Implode(rest[1..], sep);
        }
      }
    }
  }

  /** Appending a separator and a separator-free piece appends one piece. */
  lemma {:induction false} ExplodeAppend(x: string, sep: char, t: string)
    requires sep !in t
    ensures Explode(x + [sep] + t, sep) == Explode(x, sep) + [t]
    decreases |x|
  {
    if |x| == 0 {
      assert x + [sep] + t == [sep] + t;
      ExplodeNoSeparator(t, sep);
    } else {
      assert (x + [sep] + t)[1..] == x[1..] + [sep] + t;
      ExplodeAppend(x[1..], sep, t);
    }
  }

  lemma {:induction false} ExplodeNoSeparator(t: string, sep: char)
    requires sep !in t
    ensures Explode(t, sep) == [t]
    decreases |t|
  {
    if |t| > 0 {
      ExplodeNoSeparator(t[1..], sep);
      assert [t[0]] + t[1..] == t;
    }
  }

  /** The non-empty pieces, in order (a foreach that keeps strlen($piece)). */
  function NonEmpty(pieces: seq<string>): (r: seq<string>)
    ensures |r| <= |pieces|
  {
    if |pieces| == 0 then []
    else
      var last := pieces[|pieces| - 1];
      NonEmpty(pieces[..|pieces| - 1]) + (if last != "" then [last] else [])
  }

  lemma {:induction false} NonEmptyAppend(a: seq<string>, b: seq<string>)
    ensures NonEmpty(a + b) == NonEmpty(a) + NonEmpty(b)
    decreases |b|
  {
    if |b| > 0 {
      var init := b[..|b| - 1];
      assert (a + b)[..|a + b| - 1] == a + init;
      NonEmptyAppend(a, init);
    } else {
      assert a + b == a;
    }
  }

  /** The kept pieces are non-empty and, when no piece holds `sep`, hold no `sep`. */
  lemma {:induction false} NonEmptyKeeps(pieces: seq<string>, sep: char)
    requires forall i :: 0 <= i < |pieces| ==> sep !in pieces[i]
    ensures forall i :: 0 <= i < |NonEmpty(pieces)| ==> NonEmpty(pieces)[i] != "" && sep !in NonEmpty(pieces)[i]
    decreases |pieces|
  {
    if |pieces| > 0 {
      var init := pieces[..|pieces| - 1];
      var last := pieces[|pieces| - 1];
      assert forall j :: 0 <= j < |init| ==> init[j] == pieces[j];
      NonEmptyKeeps(init, sep);
      var front := NonEmpty(init);
      assert forall k :: 0 <= k < |front| ==> front[k] != "" && sep !in front[k];
      var r := NonEmpty(pieces);
      assert r == front + (if last != "" then [last] else []);
      forall i | 0 <= i < |r| ensures r[i] != "" && sep !in r[i] {
        if i < |front| {
          assert r[i] == front[i];
        } else {
          assert r[i] == last;
        }
      }
    }
  }

  lemma {:induction false} NonEmptyAll(pieces: seq<string>)
    requires forall i :: 0 <= i < |pieces| ==> pieces[i] != ""
    ensures NonEmpty(pieces) == pieces
    decreases |pieces|
  {
    if |pieces| > 0 {
      var init := pieces[..|pieces| - 1];
      NonEmptyAll(init);
      assert pieces == init + [pieces[|pieces| - 1]];
    }
  }

  /** PHP truthiness of a string: "" and "0" are falsy. */
  predicate Truthy(s: string)
  {
    s != "" && s != "0"
  }

  predicate IsDigit(c: char)
  {
    '0' <= c <= '9'
  }

  /** The decimal value of a string of digits. */
  function DigitsValue(s: string): int
  {
    if |s| == 0 then 0
    else DigitsValue(s[..|s| - 1]) * 10 + (s[|s| - 1] as int - '0' as int)
  }

  /** A PHP numeric string written as an integer: an optional sign and digits. */
  predicate IsIntegerString(s: string)
  {
    var digits := if |s| > 0 && (s[0] == '+' || s[0] == '-') then s[1..] else s;
    |digits| > 0 && forall c :: c in digits ==> IsDigit(c)
  }

  function IntegerValue(s: string): int
    requires IsIntegerString(s)
  {
    if s[0] == '-' then 0 - DigitsValue(s[1..])
    else if s[0] == '+' then DigitsValue(s[1..])
    else DigitsValue(s)
  }

  /** One more digit at the end multiplies the value by ten and adds it. */
  lemma DigitsSnoc(s: string, c: char)
    ensures DigitsValue(s + [c]) == DigitsValue(s) * 10 + (c as int - '0' as int)
  {
    assert (s + [c])[..|s + [c]| - 1] == s;
  }

  /** A leading zero does not change the value of a string of digits. */
  lemma {:induction false} DigitsLeadingZero(s: string)
    ensures DigitsValue("0" + s) == DigitsValue(s)
    decreases |s|
  {
    if |s| > 0 {
      var init := s[..|s| - 1];
      DigitsLeadingZero(init);
      assert s == init + [s[|s| - 1]];
      assert "0" + s == ("0" + init) + [s[|s| - 1]];
      DigitsSnoc("0" + init, s[|s| - 1]);
      DigitsSnoc(init, s[|s| - 1]);
    }
  }

  /** Ten to the power `n`. */
  function Pow10(n: nat): (r: nat)
    ensures r >= 1
  {
    if n == 0 then 1 else 10 * Pow10(n - 1)
  }

  lemma {:induction false} Pow10Monotone(m: nat, n: nat)
    requires m <= n
    ensures Pow10(m) <= Pow10(n)
    decreases n
  {
    if m < n {
      Pow10Monotone(m, n - 1);
    }
  }

  lemma Pow10Order(m: nat, n: nat)
    ensures m <= n ==> Pow10(m) <= Pow10(n)
  {
    if m <= n {
      Pow10Monotone(m, n);
    }
  }

  /** Every character is a decimal digit. */
  predicate AllDigits(s: string)
  {
    forall i :: 0 <= i < |s| ==> IsDigit(s[i])
  }

  /** `n` digits are worth less than 10^n. */
  lemma {:induction false} DigitsBelow(s: string)
    requires AllDigits(s)
    ensures 0 <= DigitsValue(s) < Pow10(|s|)
    decreases |s|
  {
    if |s| > 0 {
      var init := s[..|s| - 1];
      assert AllDigits(init) by {
        forall i | 0 <= i < |init| ensures IsDigit(init[i]) { assert init[i] == s[i]; }
      }
      DigitsBelow(init);
      assert DigitsValue(init) * 10 <= (Pow10(|init|) - 1) * 10;
    }
  }

  /** `n` digits without a leading zero are worth at least 10^(n-1). */
  lemma {:induction false} DigitsAtLeast(s: string)
    requires AllDigits(s) && |s| > 0 && s[0] != '0'
    ensures Pow10(|s| - 1) <= DigitsValue(s)
    decreases |s|
  {
    var init := s[..|s| - 1];
    assert AllDigits(init) by {
      forall i | 0 <= i < |init| ensures IsDigit(init[i]) { assert init[i] == s[i]; }
    }
    if |s| > 1 {
      DigitsAtLeast(init);
      assert DigitsValue(init) * 10 >= Pow10(|init| - 1) * 10;
    } else {
      assert init == [];
    }
  }

  /** Two digit strings of the same length and value are the same string. */
  lemma {:induction false} DigitsInjective(s: string, t: string)
    requires AllDigits(s) && AllDigits(t) && |s| == |t| && DigitsValue(s) == DigitsValue(t)
    ensures s == t
    decreases |s|
  {
    if |s| > 0 {
      var si, ti := s[..|s| - 1], t[..|t| - 1];
      assert AllDigits(si) by {
        forall i | 0 <= i < |si| ensures IsDigit(si[i]) { assert si[i] == s[i]; }
      }
      assert AllDigits(ti) by {
        forall i | 0 <= i < |ti| ensures IsDigit(ti[i]) { assert ti[i] == t[i]; }
      }
      var a, b := s[|s| - 1] as int - '0' as int, t[|t| - 1] as int - '0' as int;
      assert (DigitsValue(si) - DigitsValue(ti)) * 10 == b - a;
      assert DigitsValue(si) == DigitsValue(ti);
      DigitsInjective(si, ti);
      assert s == si + [s[|s| - 1]] && t == ti + [t[|t| - 1]];
    }
  }

  /** Digit strings without a leading zero are equal when their values are. */
  lemma CanonicalDigitsInjective(s: string, t: string)
    requires AllDigits(s) && AllDigits(t) && |s| > 0 && |t| > 0 && s[0] != '0' && t[0] != '0'
    requires DigitsValue(s) == DigitsValue(t)
    ensures s == t
  {
    DigitsBelow(s);
    DigitsBelow(t);
    DigitsAtLeast(s);
    DigitsAtLeast(t);
    Pow10Order(|s|, |t| - 1);
    Pow10Order(|t|, |s| - 1);
    DigitsInjective(s, t);
  }

  /** The value of the digits of 2^63. */
  lemma DigitsLiteral()
    ensures DigitsValue("9223372036854775808") == 9223372036854775808
  {
    var s: string := "9";
    assert DigitsValue(s) == 9 by { assert s[..0] == ""; }
    DigitsSnoc(s, '2');
    s := s + ['2'];
    assert DigitsValue(s) == 92;
    DigitsSnoc(s, '2');
    s := s + ['2'];
    assert DigitsValue(s) == 922;
    DigitsSnoc(s, '3');
    s := s + ['3'];
    assert DigitsValue(s) == 9223;
    DigitsSnoc(s, '3');
    s := s + ['3'];
    assert DigitsValue(s) == 92233;
    DigitsSnoc(s, '7');
    s := s + ['7'];
    assert DigitsValue(s) == 922337;
    DigitsSnoc(s, '2');
    s := s + ['2'];
    assert DigitsValue(s) == 9223372;
    DigitsSnoc(s, '0');
    s := s + ['0'];
    assert DigitsValue(s) == 92233720;
    DigitsSnoc(s, '3');
    s := s + ['3'];
    assert DigitsValue(s) == 922337203;
    DigitsSnoc(s, '6');
    s := s + ['6'];
    assert DigitsValue(s) == 9223372036;
    DigitsSnoc(s, '8');
    s := s + ['8'];
    assert DigitsValue(s) == 92233720368;
    DigitsSnoc(s, '5');
    s := s + ['5'];
    assert DigitsValue(s) == 922337203685;
    DigitsSnoc(s, '4');
    s := s + ['4'];
    assert DigitsValue(s) == 9223372036854;
    DigitsSnoc(s, '7');
    s := s + ['7'];
    assert DigitsValue(s) == 92233720368547;
    DigitsSnoc(s, '7');
    s := s + ['7'];
    assert DigitsValue(s) == 922337203685477;
    DigitsSnoc(s, '5');
    s := s + ['5'];
    assert DigitsValue(s) == 9223372036854775;
    DigitsSnoc(s, '8');
    s := s + ['8'];
    assert DigitsValue(s) == 92233720368547758;
    DigitsSnoc(s, '0');
    s := s + ['0'];
    assert DigitsValue(s) == 922337203685477580;
    DigitsSnoc(s, '8');
    s := s + ['8'];
    assert DigitsValue(s) == 9223372036854775808;
    assert s == "9223372036854775808";
  }

  /** PHP_INT_MAX on a 64-bit build. */
  const IntMax: int := 0x7FFF_FFFF_FFFF_FFFF

  /** An integer string whose value fits PHP's 64-bit integer. */
  predicate FitsInt(s: string)
    requires IsIntegerString(s)
  {
    -IntMax - 1 <= IntegerValue(s) <= IntMax
  }

  /** PHP 8's loose `==` of two strings: two integer numeric strings that
      both fit PHP's integer compare by value; when one of them overflows,
      PHP either answers false (only one overflows, or they overflow to
      different values) or falls back to the string comparison (both
      overflow alike), which is plain equality in every case. Any other pair
      compares character by character. */
  function LooseEquals(a: string, b: string): (r: bool)
    ensures a == b ==> r
    ensures r && a != b ==> IsIntegerString(a) && IsIntegerString(b) && FitsInt(a) && FitsInt(b)
                            && IntegerValue(a) == IntegerValue(b)
    ensures (IsIntegerString(a) && IsIntegerString(b) && FitsInt(a) && FitsInt(b)
             && IntegerValue(a) == IntegerValue(b)) ==> r
  {
    if IsIntegerString(a) && IsIntegerString(b) && FitsInt(a) && FitsInt(b) then IntegerValue(a) == IntegerValue(b)
    else a == b
  }

  lemma LooseEqualsReflexive(a: string)
    ensures LooseEquals(a, a)
  {
  }

  /** "01" == "1" holds in PHP, so equal-looking routes differ from equal strings. */
  lemma LooseEqualsLeadingZero()
    ensures LooseEquals("01", "1") && "01" != "1"
  {
    assert IsIntegerString("01") && IsIntegerString("1");
    assert DigitsValue("01") == DigitsValue("0") * 10 + 1;
    assert DigitsValue("0") == 0;
  }

  /** Two integer strings whose value is beyond PHP_INT_MAX are loosely equal
      only when they are the same string, however equal their values. */
  lemma LooseEqualsBeyondIntMax(a: string, b: string)
    requires IsIntegerString(a) && IsIntegerString(b) && a != b
    requires IntegerValue(a) > IntMax
    ensures !LooseEquals(a, b)
  {
  }

  /** So "09223372036854775808" and "9223372036854775808", both 2^63, differ
      under PHP's `==` while "01" and "1" do not. */
  lemma {:induction false} LooseEqualsIntMaxExample()
    ensures IsIntegerString("09223372036854775808") && IsIntegerString("9223372036854775808")
    ensures IntegerValue("09223372036854775808") == IntegerValue("9223372036854775808") == IntMax + 1
    ensures !LooseEquals("09223372036854775808", "9223372036854775808")
  {
    var b := "9223372036854775808";
    var a := "0" + b;
    assert a == "09223372036854775808";
    DigitsLiteral();
    DigitsLeadingZero(b);
    assert IsIntegerString(b) && IntegerValue(b) == DigitsValue(b);
    assert IsIntegerString(a) && IntegerValue(a) == DigitsValue(a);
    LooseEqualsBeyondIntMax(a, b);
  }
}
