/** Exactly which texts are read as numbers, and which topics as a vehicle's. */
module TopicLaws {
  import opened Schema
  import opened Topic

  // ----- Numerals ------------------------------------------------------------------------------

  function OnlyDigits(s: string): string {
    if s == "" then ""
    else OnlyDigits(s[..|s| - 1]) + if IsDigit(s[|s| - 1]) then [s[|s| - 1]] else ""
  }

  function Zeros(k: nat): string {
    seq(k, i => '0')
  }

  /** A digit, or an underscore between two digits. */
  predicate Fits(s: string, i: nat)
    requires i < |s|
  {
    IsDigit(s[i]) || (s[i] == '_' && 0 < i < |s| - 1 && IsDigit(s[i - 1]) && IsDigit(s[i + 1]))
  }

  predicate Numeral(s: string) {
    s != "" && forall i: nat | i < |s| :: Fits(s, i)
  }

  /** The digits of `s` are the decimal printing of `v`, with leading zeros or none. */
  predicate Writes(s: string, v: nat) {
    |Print(v)| <= |OnlyDigits(s)| && OnlyDigits(s) == Zeros(|OnlyDigits(s)| - |Print(v)|) + Print(v)
  }

  /** The numeral without its last digit, and without an underscore before it. */
  function Shorter(s: string): string
    requires |s| > 1
  {
    var init := s[..|s| - 1];
    if init[|init| - 1] == '_' then init[..|init| - 1] else init
  }

  lemma FewerDigits(s: string)
    requires |s| > 1 && IsDigit(s[|s| - 1])
    ensures OnlyDigits(s) == OnlyDigits(Shorter(s)) + [s[|s| - 1]]
  {
    var init := s[..|s| - 1];
    if init[|init| - 1] == '_' {
      assert OnlyDigits(init) == OnlyDigits(init[..|init| - 1]) + "";
    }
  }

  lemma NumeralLengthens(s: string)
    requires |s| > 1 && IsDigit(s[|s| - 1]) && Numeral(Shorter(s))
    ensures Numeral(s)
  {
    var rest, n := Shorter(s), |s|;
    assert Fits(rest, |rest| - 1);
    forall i: nat | i < n ensures Fits(s, i) {
      if i < |rest| {
        assert Fits(rest, i);
      }
    }
  }

  lemma NumeralShortens(s: string)
    requires |s| > 1 && Numeral(s)
    ensures Numeral(Shorter(s))
  {
    var rest, n := Shorter(s), |s|;
    assert Fits(s, n - 2) && Fits(s, 0);
    forall i: nat | i < |rest| ensures Fits(rest, i) {
      assert Fits(s, i);
    }
  }

  lemma WritesOneMore(s: string, v: nat, c: char)
    requires IsDigit(c) && Writes(s, v)
    ensures var w := 10 * v + DigitValue(c);
            forall t | OnlyDigits(t) == OnlyDigits(s) + [c] :: Writes(t, w)
  {
    var w, digits := 10 * v + DigitValue(c), OnlyDigits(s) + [c];
    var k := |OnlyDigits(s)| - |Print(v)|;
    assert [('0' as int + DigitValue(c)) as char] == [c];
    if v == 0 {
      assert Print(w) == [c];
      assert digits == Zeros(k + 1) + Print(w);
    } else {
      assert w / 10 == v && w % 10 == DigitValue(c);
      assert Print(w) == Print(v) + [c];
      assert digits == Zeros(k) + Print(w);
    }
  }

  lemma {:induction false} DigitsWrite(s: string)
    ensures Digits(s).Some? <==> Numeral(s)
    ensures Digits(s).Some? ==> Digits(s).value >= 0 && Writes(s, Digits(s).value)
    decreases |s|
  {
    if s != "" && !IsDigit(s[|s| - 1]) {
      assert !Fits(s, |s| - 1);
    } else if s == "" {
    } else if |s| == 1 {
      assert OnlyDigits(s) == OnlyDigits("") + [s[0]] == [s[0]];
      assert Print(DigitValue(s[0])) == [s[0]];
      assert Zeros(0) == "";
    } else {
      FewerDigits(s);
      DigitsWrite(Shorter(s));
      if Numeral(Shorter(s)) {
        NumeralLengthens(s);
      }
      if Numeral(s) {
        NumeralShortens(s);
        WritesOneMore(Shorter(s), Digits(Shorter(s)).value, s[|s| - 1]);
      }
    }
  }

  lemma OneDigitMore(front: string, v: int, c: char)
    requires Digits(front) == Some(v) && IsDigit(c)
    ensures Digits(front + [c]) == Some(10 * v + DigitValue(c))
  {
    var s := front + [c];
    assert s[..|s| - 1] == front && IsDigit(front[|front| - 1]);
  }

  /** A printed number is its front and its last digit. */
  lemma LastDigit(v: nat)
    requires v >= 10
    ensures var c := ('0' as int + v % 10) as char;
            IsDigit(c) && Print(v) == Print(v / 10) + [c] && 10 * (v / 10) + DigitValue(c) == v
  {
  }

  lemma {:induction false} PaddedIsRead(k: nat, v: nat)
    ensures Digits(Zeros(k) + Print(v)) == Some(v)
    decreases k + v
  {
    hide Print, Digits;
    if v >= 10 {
      LastDigit(v);
      PaddedIsRead(k, v / 10);
      var c := ('0' as int + v % 10) as char;
      OneDigitMore(Zeros(k) + Print(v / 10), v / 10, c);
      assert Zeros(k) + Print(v) == (Zeros(k) + Print(v / 10)) + [c];
    } else if k > 0 {
      PaddedIsRead(k - 1, 0);
      PrintDigit(0);
      PrintDigit(v);
      OneDigitMore(Zeros(k - 1) + Print(0), 0, Print(v)[0]);
      assert Zeros(k) + Print(v) == (Zeros(k - 1) + Print(0)) + [Print(v)[0]];
    } else {
      assert Zeros(0) + Print(v) == Print(v);
      DigitsUndoPrint(v);
    }
  }

  lemma PrintDigit(v: nat)
    requires v < 10
    ensures |Print(v)| == 1 && IsDigit(Print(v)[0]) && DigitValue(Print(v)[0]) == v
    ensures v == 0 ==> Print(v) == "0"
  {
  }

  lemma WritesOne(s: string, v: nat, w: nat)
    requires Writes(s, v) && Writes(s, w)
    ensures v == w
  {
    PaddedIsRead(|OnlyDigits(s)| - |Print(v)|, v);
    PaddedIsRead(|OnlyDigits(s)| - |Print(w)|, w);
  }

  /** A text of digits and underscores is read exactly if it is a numeral, as the number it writes. */
  lemma DigitsExactly(s: string, v: nat)
    ensures Digits(s) == Some(v) <==> Numeral(s) && Writes(s, v)
  {
    DigitsWrite(s);
    if Numeral(s) && Writes(s, v) {
      WritesOne(s, v, Digits(s).value);
    }
  }

  lemma {:induction false} DigitsAreCounted(s: string)
    ensures CountDigits(s) == |OnlyDigits(s)|
  {
    if s != "" {
      DigitsAreCounted(s[..|s| - 1]);
    }
  }

  // ----- Signs and space -----------------------------------------------------------------------

  /** Blanks, and the five control characters from tab to carriage return, by their ASCII codes. */
  predicate AllSpace(s: string) {
    forall i | 0 <= i < |s| :: s[i] as int == 32 || 9 <= s[i] as int <= 13
  }

  predicate Trimmed(s: string) {
    s != "" ==> !IsSpace(s[0]) && !IsSpace(s[|s| - 1])
  }

  lemma {:induction false} LeftStripped(a: string, t: string)
    requires AllSpace(a) && (t != "" ==> !IsSpace(t[0]))
    ensures StripLeft(a + t) == t
  {
    if a == "" {
      assert a + t == t;
    } else {
      assert (a + t)[1..] == a[1..] + t;
      LeftStripped(a[1..], t);
    }
  }

  lemma {:induction false} RightStripped(t: string, b: string)
    requires AllSpace(b) && (t != "" ==> !IsSpace(t[|t| - 1]))
    ensures StripRight(t + b) == t
  {
    if b == "" {
      assert t + b == t;
    } else {
      assert (t + b)[..|t + b| - 1] == t + b[..|b| - 1];
      RightStripped(t, b[..|b| - 1]);
    }
  }

  lemma Stripped(a: string, t: string, b: string)
    requires AllSpace(a) && AllSpace(b) && Trimmed(t)
    ensures StripRight(StripLeft(a + t + b)) == t
  {
    if t == "" {
      assert a + t + b == (a + b) + "";
      assert AllSpace(a + b);
      LeftStripped(a + b, "");
    } else {
      assert a + t + b == a + (t + b) && (t + b)[0] == t[0];
      LeftStripped(a, t + b);
      RightStripped(t, b);
    }
  }

  lemma {:induction false} LeftPart(s: string) returns (k: nat)
    ensures k <= |s| && StripLeft(s) == s[k..] && AllSpace(s[..k]) && (k < |s| ==> !IsSpace(s[k]))
  {
    k := 0;
    if s != "" && IsSpace(s[0]) {
      var rest := LeftPart(s[1..]);
      k := rest + 1;
      assert s[1..][rest..] == s[k..];
      assert s[..k] == [s[0]] + s[1..][..rest];
    }
  }

  lemma {:induction false} RightPart(s: string) returns (k: nat)
    ensures k <= |s| && StripRight(s) == s[..k] && AllSpace(s[k..]) && (k > 0 ==> !IsSpace(s[k - 1]))
  {
    k := |s|;
    if s != "" && IsSpace(s[|s| - 1]) {
      var front := s[..|s| - 1];
      k := RightPart(front);
      assert front[..k] == s[..k] && s[k..] == front[k..] + [s[|s| - 1]];
    }
  }

  /** What stripping takes off. */
  lemma Margins(s: string) returns (a: string, b: string)
    ensures s == a + StripRight(StripLeft(s)) + b && AllSpace(a) && AllSpace(b)
  {
    var i := LeftPart(s);
    var rest := s[i..];
    var j := RightPart(rest);
    a, b := s[..i], rest[j..];
    assert rest == rest[..j] + b;
    assert s == a + (rest[..j] + b) == a + rest[..j] + b;
  }

  /** `s` is the numeral `body` with a sign or none, between spaces. */
  predicate Spells(s: string, n: int, a: string, sign: string, body: string, b: string) {
    && s == a + (sign + body) + b && AllSpace(a) && AllSpace(b)
    && (sign == "" || sign == "+" || sign == "-")
    && Numeral(body) && |OnlyDigits(body)| <= 4300
    && if sign == "-" then n <= 0 && Writes(body, -n) else n >= 0 && Writes(body, n)
  }

  lemma SignStripped(a: string, sign: string, body: string, b: string)
    requires AllSpace(a) && AllSpace(b) && (sign == "" || sign == "+" || sign == "-") && Numeral(body)
    ensures StripRight(StripLeft(a + (sign + body) + b)) == sign + body
    ensures body[0] != '+' && body[0] != '-'
  {
    var t := sign + body;
    assert Fits(body, 0) && Fits(body, |body| - 1);
    assert t[|t| - 1] == body[|body| - 1] && t[0] == if sign == "" then body[0] else sign[0];
    Stripped(a, t, b);
  }

  lemma SpelledIsRead(s: string, n: int, a: string, sign: string, body: string, b: string)
    requires Spells(s, n, a, sign, body, b)
    ensures ParseInt(s) == Some(n)
  {
    hide StripLeft, StripRight, Numeral, Writes, Digits, AllSpace;
    SignStripped(a, sign, body, b);
    assert sign != "" ==> (sign + body)[1..] == body && (sign + body)[0] == sign[0];
    assert sign == "" ==> sign + body == body;
    DigitsExactly(body, if sign == "-" then -n else n);
    DigitsAreCounted(body);
  }

  lemma ReadIsSpelled(s: string, n: int) returns (a: string, sign: string, body: string, b: string)
    requires ParseInt(s) == Some(n)
    ensures Spells(s, n, a, sign, body, b)
  {
    a, b := Margins(s);
    var t := StripRight(StripLeft(s));
    var signed := t != "" && (t[0] == '+' || t[0] == '-');
    sign, body := if signed then t[..1] else "", if signed then t[1..] else t;
    assert t == sign + body;
    hide StripLeft, StripRight, Digits, Numeral, Writes, CountDigits, OnlyDigits, AllSpace;
    DigitsWrite(body);
    DigitsAreCounted(body);
    assert Digits(body).Some?;
  }

  /** A text is read as the number `n` exactly when it spells it: spaces around, one sign or none, digits
      with single underscores between them, no more than 4300 of them. */
  lemma ParseIntExactly(s: string, n: int)
    ensures ParseInt(s) == Some(n) <==> exists a, sign, body, b :: Spells(s, n, a, sign, body, b)
  {
    if ParseInt(s) == Some(n) {
      var a, sign, body, b := ReadIsSpelled(s, n);
    }
    if exists a, sign, body, b :: Spells(s, n, a, sign, body, b) {
      var a, sign, body, b :| Spells(s, n, a, sign, body, b);
      SpelledIsRead(s, n, a, sign, body, b);
    }
  }

  // ----- Topics --------------------------------------------------------------------------------

  function Join(parts: seq<string>): string
    requires parts != []
  {
    if |parts| == 1 then parts[0] else parts[0] + "/" + Join(parts[1..])
  }

  lemma JoinPrepends(c: char, parts: seq<string>)
    requires parts != []
    ensures Join(Prepend(c, parts)) == [c] + Join(parts)
  {
    if |parts| > 1 {
      assert Prepend(c, parts)[1..] == parts[1..];
    }
  }

  lemma {:induction false} JoinUndoesSplit(s: string)
    ensures Join(Split(s)) == s
  {
    if s != "" {
      JoinUndoesSplit(s[1..]);
      var rest := Split(s[1..]);
      if s[0] == '/' {
        assert ([""] + rest)[1..] == rest;
      } else {
        JoinPrepends(s[0], rest);
      }
    }
  }

  lemma JoinThree(a: string, b: string, c: string)
    ensures Join([a, b, c]) == a + "/" + b + "/" + c
  {
    assert [a, b, c][1..] == [b, c] && [b, c][1..] == [c];
    assert Join([b, c]) == b + "/" + c;
    assert a + "/" + (b + "/" + c) == a + "/" + b + "/" + c;
  }

  /** The topic is this middle level between the prefix and "gps". */
  predicate Names(topic: string, prefix: string, middle: string, id: int) {
    topic == prefix + "/" + middle + "/gps" && '/' !in prefix && '/' !in middle && ParseInt(middle) == Some(id)
  }

  /** A topic is taken for vehicle `id` exactly when it is prefix, number and "gps" joined by slashes, the
      number at least one. */
  lemma ParseTopicExactly(topic: string, prefix: string, id: int)
    ensures ParseTopic(topic, prefix) == Some(id) <==> id >= 1 && exists middle :: Names(topic, prefix, middle, id)
  {
    if ParseTopic(topic, prefix) == Some(id) {
      var parts := Split(topic);
      LevelsAreParts(topic);
      JoinUndoesSplit(topic);
      JoinThree(prefix, parts[1], "gps");
      assert parts == [prefix, parts[1], "gps"];
      assert '/' !in parts[0] && '/' !in parts[1];
      assert Names(topic, prefix, parts[1], id);
    }
    if id >= 1 && exists middle :: Names(topic, prefix, middle, id) {
      var middle :| Names(topic, prefix, middle, id);
      SplitGpsTopic(prefix, middle);
      SplitPlain(prefix);
    }
  }
}
