/** The handful of Ruby `String` operations both scripts are built from:
    awk-style `split`, `split` on one character, `join`, `rstrip`,
    `start_with?`, `delete`, ASCII `downcase`, `to_i` and `Integer#to_s`.
    Strings are sequences of characters; the scripts only ever split on
    ASCII whitespace, `"d"` and `"+"`. */
module RubyString {

  import opened Wrappers

  // ---------------------------------------------------------------------
  // Character classes
  // ---------------------------------------------------------------------

  /** Ruby's ASCII whitespace: space, tab, line feed, vertical tab, form feed,
      carriage return. Used by awk-style `split`, `rstrip` and `to_i`. */
  predicate IsSpace(c: char) {
    c == ' ' || c == '\t' || c == '\n' || c == '\U{B}' || c == '\U{C}' || c == '\r'
  }

  /** `rstrip` also removes trailing NUL characters. */
  predicate IsStrippable(c: char) {
    IsSpace(c) || c == '\0'
  }

  predicate IsDigit(c: char) {
    '0' <= c <= '9'
  }

  function DigitValue(c: char): int
    requires IsDigit(c)
  {
    c as int - '0' as int
  }

  function DigitChar(d: int): char
    requires 0 <= d < 10
  {
    ('0' as int + d) as char
  }

  /** A token produced by awk-style `split`: non-empty, no whitespace. */
  predicate IsWord(w: string) {
    |w| > 0 && forall i :: 0 <= i < |w| ==> !IsSpace(w[i])
  }

  predicate AllWords(ws: seq<string>) {
    forall i :: 0 <= i < |ws| ==> IsWord(ws[i])
  }

  // ---------------------------------------------------------------------
  // `str.split` (no argument) and `arr.join(sep)`
  // ---------------------------------------------------------------------

  /** Length of the longest whitespace-free prefix of `s`. */
  function WordLength(s: string): (n: nat)
    ensures n <= |s|
    ensures forall i :: 0 <= i < n ==> !IsSpace(s[i])
    ensures n < |s| ==> IsSpace(s[n])
  {
    if s == [] || IsSpace(s[0]) then 0 else 1 + WordLength(s[1..])
  }

  /** `s.split`: the maximal whitespace-free runs of `s`, in order. */
  function Words(s: string): (ws: seq<string>)
    ensures AllWords(ws)
    decreases |s|
  {
    if s == [] then []
    else if IsSpace(s[0]) then Words(s[1..])
    else
      var n := WordLength(s);
      [s[..n]] + Words(s[n..])
  }

  /** A character the text lacks is in none of its words. */
  lemma {:induction false} WordsAvoid(s: string, x: char)
    requires x !in s
    ensures forall i :: 0 <= i < |Words(s)| ==> x !in Words(s)[i]
    decreases |s|
  {
    if s != [] {
      assert s == [s[0]] + s[1..];
      if IsSpace(s[0]) {
        WordsAvoid(s[1..], x);
      } else {
        var n := WordLength(s);
        assert s == s[..n] + s[n..];
        WordsAvoid(s[n..], x);
        var ws := Words(s);
        assert ws == [s[..n]] + Words(s[n..]);
        forall i | 0 <= i < |ws|
          ensures x !in ws[i]
        {
          if i > 0 {
            assert ws[i] == Words(s[n..])[i - 1];
          }
        }
      }
    }
  }

  /** `ws.join(sep)`. */
  function Join(ws: seq<string>, sep: string): string {
    if ws == [] then []
    else if |ws| == 1 then ws[0]
    else ws[0] + sep + Join(ws[1..], sep)
  }

  lemma {:induction false} WordLengthOfWord(w: string, rest: string)
    requires IsWord(w)
    requires rest == [] || IsSpace(rest[0])
    ensures WordLength(w + rest) == |w|
    decreases |w|
  {
    if |w| > 1 {
      assert (w + rest)[1..] == w[1..] + rest;
      WordLengthOfWord(w[1..], rest);
    } else {
      assert (w + rest)[1..] == rest;
    }
  }

  /** A word followed by whitespace (or nothing) splits off as one token. */
  lemma WordsAfterWord(w: string, rest: string)
    requires IsWord(w)
    requires rest == [] || IsSpace(rest[0])
    ensures Words(w + rest) == [w] + Words(rest)
  {
    WordLengthOfWord(w, rest);
    assert (w + rest)[..|w|] == w;
    assert (w + rest)[|w|..] == rest;
  }

  /** Whitespace before the text is skipped, and an empty text has no
      tokens. With `WordsAfterWord` these determine `split` on every text:
      peel off leading whitespace one character at a time, then a maximal
      word, and repeat. */
  lemma WordsSkipSpace(c: char, s: string)
    requires IsSpace(c)
    ensures Words([]) == []
    ensures Words([c] + s) == Words(s)
  {
    assert ([c] + s)[1..] == s;
  }

  /** Joining tokens with single spaces and splitting again gives the tokens
      back. */
  lemma {:induction false} WordsOfJoin(ws: seq<string>)
    requires AllWords(ws)
    ensures Words(Join(ws, " ")) == ws
  {
    if ws == [] {
    } else if |ws| == 1 {
      WordsAfterWord(ws[0], []);
      assert ws[0] + [] == ws[0];
    } else {
      var tail := Join(ws[1..], " ");
      assert Join(ws, " ") == ws[0] + (" " + tail);
      WordsAfterWord(ws[0], " " + tail);
      assert (" " + tail)[1..] == tail;
      WordsOfJoin(ws[1..]);
    }
  }

  // ---------------------------------------------------------------------
  // `rstrip`, `start_with?`, `delete`, `downcase`
  // ---------------------------------------------------------------------

  /** `s.rstrip`: `s` without its trailing whitespace and NUL characters. */
  function Rstrip(s: string): (r: string)
    ensures r <= s
    ensures r == [] || !IsStrippable(r[|r| - 1])
    ensures forall i :: |r| <= i < |s| ==> IsStrippable(s[i])
  {
    if s != [] && IsStrippable(s[|s| - 1]) then Rstrip(s[..|s| - 1]) else s
  }

  /** `s.start_with?(p)`. */
  predicate StartsWith(s: string, p: string) {
    p <= s
  }

  /** `s.delete(x)` for a one-character argument. */
  function Delete(s: string, x: char): (r: string)
    ensures x !in r
  {
    if s == [] then []
    else
      assert s == [s[0]] + s[1..];
      (if s[0] == x then [] else [s[0]]) + Delete(s[1..], x)
  }

  /** Deleting a character that does not occur changes nothing. */
  lemma {:induction false} DeleteAbsent(s: string, x: char)
    requires x !in s
    ensures Delete(s, x) == s
  {
    if s != [] {
      DeleteAbsent(s[1..], x);
      assert s == [s[0]] + s[1..];
    }
  }

  lemma {:induction false} DeleteConcat(a: string, b: string, x: char)
    ensures Delete(a + b, x) == Delete(a, x) + Delete(b, x)
  {
    if a != [] {
      DeleteConcat(a[1..], b, x);
      assert (a + b)[1..] == a[1..] + b;
      assert (a + b)[0] == a[0];
    } else {
      assert a + b == b;
    }
  }

  /** Deleting `x` after a stretch that holds none removes only later
      occurrences. */
  lemma DeleteAfter(w: string, x: char, tail: string)
    requires x !in w
    ensures Delete(w + [x] + tail, x) == w + Delete(tail, x)
  {
    DeleteConcat(w + [x], tail, x);
    DeleteConcat(w, [x], x);
    DeleteAbsent(w, x);
    DeleteOnly(x);
    assert w + [] == w;
  }

  lemma DeleteOnly(x: char)
    ensures Delete([x], x) == []
  {
    assert [x][1..] == [];
  }

  /** A word holds no space. */
  lemma WordHasNoSpace(w: string)
    requires IsWord(w)
    ensures ' ' !in w
  {
    assert forall k :: 0 <= k < |w| ==> w[k] != ' ';
  }

  /** Words joined with spaces, spaces deleted, are the words joined with
      nothing. */
  lemma {:induction false} DeleteSpacesOfJoin(ws: seq<string>)
    requires AllWords(ws)
    ensures Delete(Join(ws, " "), ' ') == Join(ws, "")
  {
    if ws != [] {
      WordHasNoSpace(ws[0]);
      if |ws| == 1 {
        DeleteAbsent(ws[0], ' ');
      } else {
        var rest := ws[1..];
        assert AllWords(rest) by {
          assert forall k :: 0 <= k < |rest| ==> rest[k] == ws[k + 1];
        }
        DeleteSpacesOfJoin(rest);
        JoinStep(ws, " ");
        JoinStep(ws, "");
        DeleteSpaceStep(ws[0], Join(rest, " "), Join(rest, ""));
      }
    }
  }

  lemma JoinStep(ws: seq<string>, sep: string)
    requires |ws| > 1
    ensures Join(ws, sep) == ws[0] + sep + Join(ws[1..], sep)
  {
  }

  lemma DeleteSpaceStep(w: string, joined: string, glued: string)
    requires ' ' !in w && Delete(joined, ' ') == glued
    ensures Delete(w + " " + joined, ' ') == w + "" + glued
  {
    assert w + " " + joined == w + [' '] + joined;
    DeleteAfter(w, ' ', joined);
    assert w + "" == w;
  }

  function LowerChar(c: char): char {
    if 'A' <= c <= 'Z' then (c as int + 32) as char else c
  }

  /** `s.downcase`, restricted to the ASCII letters. */
  function Lower(s: string): (r: string)
    ensures |r| == |s|
    ensures forall i :: 0 <= i < |s| ==> r[i] == LowerChar(s[i])
  {
    seq(|s|, i requires 0 <= i < |s| => LowerChar(s[i]))
  }

  // ---------------------------------------------------------------------
  // `s.split(c)` for a one-character separator
  // ---------------------------------------------------------------------

  /** Every field of `s` between occurrences of `c`, empty ones included. */
  function Fields(s: string, c: char): (fs: seq<string>)
    ensures |fs| >= 1
  {
    if s == [] then [""]
    else
      var rest := Fields(s[1..], c);
      if s[0] == c then [""] + rest else [[s[0]] + rest[0]] + rest[1..]
  }

  /** The fields put back together with the separator give the string back. */
  lemma {:induction false} JoinFields(s: string, c: char)
    ensures Join(Fields(s, c), [c]) == s
  {
    if s != [] {
      var rest := Fields(s[1..], c);
      JoinFields(s[1..], c);
      if s[0] == c {
        assert Join(Fields(s, c), [c]) == "" + [c] + Join(rest, [c]);
        assert s == [s[0]] + s[1..];
      } else if |rest| == 1 {
        assert s == [s[0]] + s[1..];
      } else {
        assert Join(rest, [c]) == rest[0] + [c] + Join(rest[1..], [c]);
        assert s == [s[0]] + s[1..];
      }
    }
  }

  /** A string without the separator is a single field. */
  lemma {:induction false} FieldsNoSeparator(a: string, c: char)
    requires c !in a
    ensures Fields(a, c) == [a]
  {
    if a != [] {
      FieldsNoSeparator(a[1..], c);
      assert a == [a[0]] + a[1..];
    }
  }

  /** One step of `Fields`: a leading character either opens a new field
      or joins the first one. */
  lemma FieldsCons(x: char, t: string, c: char)
    ensures Fields([x] + t, c) ==
              if x == c then [""] + Fields(t, c)
              else [[x] + Fields(t, c)[0]] + Fields(t, c)[1..]
  {
    assert ([x] + t)[0] == x && ([x] + t)[1..] == t;
  }

  /** The inductive step of `FieldsAround`, for a first character `x`. */
  lemma FieldsAroundStep(x: char, t: string, c: char, b: string)
    requires Fields(t + [c] + b, c) == Fields(t, c) + Fields(b, c)
    ensures Fields([x] + t + [c] + b, c) == Fields([x] + t, c) + Fields(b, c)
  {
    var u := t + [c] + b;
    assert [x] + t + [c] + b == [x] + u;
    FieldsCons(x, u, c);
    FieldsCons(x, t, c);
    ConsFields(x, c, Fields(t, c), Fields(b, c));
  }

  /** The list manipulation behind `FieldsAroundStep`. */
  lemma ConsFields(x: char, c: char, ft: seq<string>, fb: seq<string>)
    requires |ft| >= 1
    ensures x == c ==> [""] + (ft + fb) == ([""] + ft) + fb
    ensures x != c ==> [[x] + (ft + fb)[0]] + (ft + fb)[1..] == ([[x] + ft[0]] + ft[1..]) + fb
  {
    assert (ft + fb)[0] == ft[0];
    assert (ft + fb)[1..] == ft[1..] + fb;
  }

  /** Splitting at a separator splits the field list there. */
  lemma {:induction false} FieldsAround(a: string, c: char, b: string)
    ensures Fields(a + [c] + b, c) == Fields(a, c) + Fields(b, c)
  {
    if a == [] {
      assert a + [c] + b == [c] + b;
      FieldsCons(c, b, c);
    } else {
      FieldsAround(a[1..], c, b);
      FieldsAroundStep(a[0], a[1..], c, b);
      assert a == [a[0]] + a[1..];
    }
  }

  /** Some separator in `s` is followed, later on, by a character that is
      not a separator: the text has something after its first separator. */
  predicate TextAfterSeparator(s: string, c: char) {
    exists i, j :: 0 <= i < j < |s| && s[i] == c && s[j] != c
  }

  /** Some field after the first is non-empty. */
  predicate LaterField(fs: seq<string>) {
    exists k :: 1 <= k < |fs| && fs[k] != ""
  }

  /** Some field, the first included, is non-empty. */
  predicate AnyField(fs: seq<string>) {
    exists k :: 0 <= k < |fs| && fs[k] != ""
  }

  /** Some character of `s` is not `c`. */
  predicate HasOther(s: string, c: char) {
    exists j :: 0 <= j < |s| && s[j] != c
  }

  /** Some field is non-empty exactly when some character is not the
      separator. */
  lemma {:induction false} SomeFieldNonEmpty(s: string, c: char)
    ensures AnyField(Fields(s, c)) <==> HasOther(s, c)
  {
    if s != [] {
      var rest := Fields(s[1..], c);
      SomeFieldNonEmpty(s[1..], c);
      if s[0] == c {
        var fs := Fields(s, c);
        assert fs == [""] + rest;
        if AnyField(rest) {
          var k :| 0 <= k < |rest| && rest[k] != "";
          assert fs[k + 1] != "";
        }
        if AnyField(fs) {
          var k :| 0 <= k < |fs| && fs[k] != "";
          assert rest[k - 1] != "";
        }
        if HasOther(s[1..], c) {
          var j :| 0 <= j < |s[1..]| && s[1..][j] != c;
          assert s[j + 1] != c;
        }
        if HasOther(s, c) {
          var j :| 0 <= j < |s| && s[j] != c;
          assert s[1..][j - 1] != c;
        }
      } else {
        assert Fields(s, c)[0] != "";
        assert s[0] != c;
      }
    }
  }

  lemma LaterFieldAtSeparator(s: string, c: char)
    requires s != [] && s[0] == c
    ensures LaterField(Fields(s, c)) <==> TextAfterSeparator(s, c)
  {
    var fs := Fields(s, c);
    var rest := Fields(s[1..], c);
    var t := s[1..];
    SomeFieldNonEmpty(t, c);
    assert fs == [""] + rest;
    if AnyField(rest) {
      var k :| 0 <= k < |rest| && rest[k] != "";
      assert fs[k + 1] != "";
    }
    if LaterField(fs) {
      var k :| 1 <= k < |fs| && fs[k] != "";
      assert rest[k - 1] != "";
    }
    if HasOther(t, c) {
      var j :| 0 <= j < |t| && t[j] != c;
      assert s[0] == c && s[j + 1] != c;
    }
    if TextAfterSeparator(s, c) {
      var i, j :| 0 <= i < j < |s| && s[i] == c && s[j] != c;
      assert t[j - 1] != c;
    }
  }

  /** A leading character that is not the separator only lengthens the
      first field. */
  lemma LaterFieldShift(s: string, c: char)
    requires s != [] && s[0] != c
    ensures LaterField(Fields(s, c)) <==> LaterField(Fields(s[1..], c))
  {
    var fs := Fields(s, c);
    var rest := Fields(s[1..], c);
    assert fs[1..] == rest[1..];
    if LaterField(rest) {
      var k :| 1 <= k < |rest| && rest[k] != "";
      assert fs[k] == rest[1..][k - 1];
    }
    if LaterField(fs) {
      var k :| 1 <= k < |fs| && fs[k] != "";
      assert rest[k] == fs[1..][k - 1];
    }
  }

  lemma TextAfterShift(s: string, c: char)
    requires s != [] && s[0] != c
    ensures TextAfterSeparator(s, c) <==> TextAfterSeparator(s[1..], c)
  {
    var t := s[1..];
    if TextAfterSeparator(t, c) {
      var i, j :| 0 <= i < j < |t| && t[i] == c && t[j] != c;
      assert s[i + 1] == c && s[j + 1] != c;
    }
    if TextAfterSeparator(s, c) {
      var i, j :| 0 <= i < j < |s| && s[i] == c && s[j] != c;
      assert t[i - 1] == c && t[j - 1] != c;
    }
  }

  /** A field after the first is non-empty exactly when the text has
      something after a separator. */
  lemma {:induction false} LaterFieldNonEmpty(s: string, c: char)
    ensures LaterField(Fields(s, c)) <==> TextAfterSeparator(s, c)
  {
    if s != [] {
      if s[0] == c {
        LaterFieldAtSeparator(s, c);
      } else {
        LaterFieldNonEmpty(s[1..], c);
        LaterFieldShift(s, c);
        TextAfterShift(s, c);
      }
    }
  }

  /** Ruby drops the trailing empty strings of a split. */
  function DropTrailingEmpty(fs: seq<string>): (r: seq<string>)
    ensures r <= fs
    ensures r == [] || r[|r| - 1] != ""
    ensures forall i :: |r| <= i < |fs| ==> fs[i] == ""
  {
    if fs != [] && fs[|fs| - 1] == "" then DropTrailingEmpty(fs[..|fs| - 1]) else fs
  }

  /** `s.split(c)` for a one-character string `c` other than a space. */
  function Split(s: string, c: char): seq<string> {
    DropTrailingEmpty(Fields(s, c))
  }

  /** `s.split(c)` has a second element exactly when the text has something
      after a separator. */
  lemma SplitHasSecond(s: string, c: char)
    ensures |Split(s, c)| >= 2 <==> TextAfterSeparator(s, c)
  {
    LaterFieldNonEmpty(s, c);
    var fs := Fields(s, c);
    var r := Split(s, c);
    if |r| >= 2 {
      assert fs[|r| - 1] == r[|r| - 1] != "";
    }
    if LaterField(fs) {
      var k :| 1 <= k < |fs| && fs[k] != "";
      assert k < |r|;
    }
  }

  /** `arr[i]` on the result of a split: `nil` past the end. */
  function Piece(fs: seq<string>, i: nat): Option<string> {
    if i < |fs| then Some(fs[i]) else None
  }

  /** The `i`-th field of `s`, or the empty string if there are fewer. */
  function Field(s: string, c: char, i: nat): string {
    var fs := Fields(s, c);
    if i < |fs| then fs[i] else ""
  }

  /** What the split hands back at index `i` is the `i`-th field, unless that
      field is missing or empty and trailing. */
  lemma SplitPiece(s: string, c: char, i: nat)
    ensures Piece(Split(s, c), i).Some? ==> Piece(Split(s, c), i).value == Field(s, c, i)
    ensures Piece(Split(s, c), i).None? ==> Field(s, c, i) == ""
  {
  }

  // ---------------------------------------------------------------------
  // `String#to_i` and `Integer#to_s`
  // ---------------------------------------------------------------------

  function TrimLeft(s: string): (r: string)
    ensures |r| <= |s| && r == s[|s| - |r|..]
    ensures r == [] || !IsSpace(r[0])
  {
    if s != [] && IsSpace(s[0]) then TrimLeft(s[1..]) else s
  }

  /** The digit values of the longest prefix of the shape
      digit ('_'? digit)*, which is what `to_i` reads. */
  function LeadingDigits(t: string): (ds: seq<int>)
    ensures forall i :: 0 <= i < |ds| ==> 0 <= ds[i] < 10
  {
    if t == [] || !IsDigit(t[0]) then []
    else if |t| >= 3 && t[1] == '_' && IsDigit(t[2]) then [DigitValue(t[0])] + LeadingDigits(t[2..])
    else [DigitValue(t[0])] + LeadingDigits(t[1..])
  }

  /** The number a sequence of decimal digits denotes, most significant first. */
  function DigitsValue(ds: seq<int>): int {
    if ds == [] then 0 else DigitsValue(ds[..|ds| - 1]) * 10 + ds[|ds| - 1]
  }

  /** Whether `t` opens with "0d" or "0D", the prefix that marks a decimal
      literal and that base-10 `to_i` skips. */
  predicate DecimalPrefix(t: string) {
    |t| >= 2 && t[0] == '0' && (t[1] == 'd' || t[1] == 'D')
  }

  /** What `to_i` reads after the sign: the decimal prefix, if present, and
      then as many digits as possible. */
  function Unsigned(t: string): int {
    if DecimalPrefix(t) then DigitsValue(LeadingDigits(t[2..])) else DigitsValue(LeadingDigits(t))
  }

  /** `s.to_i`: skip leading whitespace, read an optional sign, an optional
      "0d" or "0D", and then as many digits as possible; 0 when there are
      none. */
  function ToI(s: string): int {
    var t := TrimLeft(s);
    if t != [] && t[0] == '-' then -Unsigned(t[1..])
    else if t != [] && t[0] == '+' then Unsigned(t[1..])
    else Unsigned(t)
  }

  /** Decimal digits of `n`, most significant first, no leading zeros. */
  function NatToString(n: nat): (s: string)
    ensures |s| > 0
    ensures forall i :: 0 <= i < |s| ==> IsDigit(s[i])
  {
    if n < 10 then [DigitChar(n)] else NatToString(n / 10) + [DigitChar(n % 10)]
  }

  /** `n.to_s`. */
  function IntToString(n: int): (s: string)
    ensures |s| > 0
    ensures forall i :: 0 <= i < |s| ==> IsDigit(s[i]) || (i == 0 && s[i] == '-')
  {
    if n < 0 then "-" + NatToString(-n) else NatToString(n)
  }

  function DigitValues(s: string): (ds: seq<int>)
    requires forall i :: 0 <= i < |s| ==> IsDigit(s[i])
    ensures |ds| == |s|
  {
    seq(|s|, i requires 0 <= i < |s| => DigitValue(s[i]))
  }

  lemma {:induction false} LeadingDigitsOfDigits(s: string)
    requires forall i :: 0 <= i < |s| ==> IsDigit(s[i])
    ensures LeadingDigits(s) == DigitValues(s)
  {
    if s != [] {
      LeadingDigitsOfDigits(s[1..]);
    }
  }

  lemma {:induction false} NatToStringValue(n: nat)
    ensures DigitsValue(DigitValues(NatToString(n))) == n
  {
    if n >= 10 {
      NatToStringValue(n / 10);
      var s := NatToString(n / 10);
      var ds := DigitValues(s + [DigitChar(n % 10)]);
      assert ds[..|ds| - 1] == DigitValues(s);
    }
  }

  lemma ToIOfDigits(s: string)
    requires s != [] && forall i :: 0 <= i < |s| ==> IsDigit(s[i])
    ensures ToI(s) == DigitsValue(DigitValues(s))
  {
    ToIUnsigned(s);
    assert !DecimalPrefix(s) by {
      assert |s| >= 2 ==> IsDigit(s[1]);
    }
    LeadingDigitsOfDigits(s);
  }

  lemma ToIOfNatToString(n: nat)
    ensures ToI(NatToString(n)) == n
  {
    ToIOfDigits(NatToString(n));
    NatToStringValue(n);
  }

  /** `to_i` reads back what `to_s` writes. */
  lemma ToIOfIntToString(n: int)
    ensures ToI(IntToString(n)) == n
  {
    if n < 0 {
      ToIOfNegIntToString(n);
    } else {
      ToIOfNatToString(n);
    }
  }

  lemma ToIOfNegIntToString(n: int)
    requires n < 0
    ensures ToI(IntToString(n)) == n
  {
    ToIOfNatToString(-n);
    ToIOfSigned(NatToString(-n), -n);
  }

  /** A minus sign before a number negates it. */
  lemma ToIOfSigned(t: string, m: int)
    requires t != [] && IsDigit(t[0]) && ToI(t) == m
    ensures ToI("-" + t) == -m
  {
    DropHead('-', t);
    ToIMinus("-" + t);
    ToIUnsigned(t);
  }

  lemma DropHead(c: char, t: string)
    ensures ([c] + t)[0] == c && ([c] + t)[1..] == t
  {
  }

  /** Base-10 `to_i` skips a "0d" or "0D" after the sign: "0d5" reads as 5
      and "-0D5" as -5. */
  lemma ToIDecimalPrefix(s: string)
    requires s != [] && forall i :: 0 <= i < |s| ==> IsDigit(s[i])
    ensures ToI("0d" + s) == ToI(s)
    ensures ToI("-0D" + s) == -ToI(s)
  {
    ToIUnsigned(s);
    ToIUnsigned("0d" + s);
    UnsignedAfterPrefix("0d", s);
    ToINegPrefixed(s);
  }

  lemma ToIUnsigned(t: string)
    requires t != [] && IsDigit(t[0])
    ensures ToI(t) == Unsigned(t)
  {
    assert TrimLeft(t) == t;
  }

  lemma ToINegPrefixed(s: string)
    requires s != [] && forall i :: 0 <= i < |s| ==> IsDigit(s[i])
    ensures ToI("-0D" + s) == -Unsigned(s)
  {
    var u := "-0D" + s;
    assert u[0] == '-';
    ToIMinus(u);
    DropSign(s);
    UnsignedAfterPrefix("0D", s);
  }

  lemma DropSign(s: string)
    ensures ("-0D" + s)[1..] == "0D" + s
  {
    var u := "-0D" + s;
    assert |u[1..]| == |"0D" + s|;
    forall i | 0 <= i < |u| - 1
      ensures u[1..][i] == ("0D" + s)[i]
    {
      if i >= 2 {
        assert u[1..][i] == s[i - 2];
      }
    }
  }

  lemma ToIMinus(u: string)
    requires u != [] && u[0] == '-'
    ensures ToI(u) == -Unsigned(u[1..])
  {
    assert TrimLeft(u) == u;
  }

  lemma UnsignedAfterPrefix(p: string, s: string)
    requires p == "0d" || p == "0D"
    requires s != [] && forall i :: 0 <= i < |s| ==> IsDigit(s[i])
    ensures Unsigned(p + s) == Unsigned(s)
  {
    assert (p + s)[2..] == s;
    assert |s| >= 2 ==> IsDigit(s[1]);
  }
}
