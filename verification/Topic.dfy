/** The topic contract {prefix}/{vehicle_id}/gps (app/mqtt/payload.py, app/mqtt/client.py). */
module Topic {
  import opened Schema

  // ----- Levels --------------------------------------------------------------------------------

  function Prepend(c: char, parts: seq<string>): (r: seq<string>)
    requires parts != []
    ensures r != []
  {
    [[c] + parts[0]] + parts[1..]
  }

  /** `str.split("/")`. */
  function Split(s: string): (parts: seq<string>)
    ensures parts != []
  {
    if s == "" then [""]
    else if s[0] == '/' then [""] + Split(s[1..])
    else Prepend(s[0], Split(s[1..]))
  }

  lemma {:induction false} SplitPlain(s: string)
    requires '/' !in s
    ensures Split(s) == [s]
  {
    if s != "" {
      SplitPlain(s[1..]);
      assert Prepend(s[0], [s[1..]]) == [[s[0]] + s[1..]];
      assert [s[0]] + s[1..] == s;
    }
  }

  lemma PrependKeepsRest(c: char, p: seq<string>, q: seq<string>)
    requires p != []
    ensures Prepend(c, p + q) == Prepend(c, p) + q
  {
    assert (p + q)[1..] == p[1..] + q;
  }

  /** Splitting undoes joining with a slash. */
  lemma {:induction false} SplitAtSlash(a: string, b: string)
    ensures Split(a + "/" + b) == Split(a) + Split(b)
  {
    var whole := a + "/" + b;
    if a == "" {
      assert whole[1..] == b;
    } else {
      SplitAtSlash(a[1..], b);
      assert whole[0] == a[0] && whole[1..] == a[1..] + "/" + b;
      var rest := Split(a[1..]);
      if a[0] == '/' {
        assert [""] + (rest + Split(b)) == ([""] + rest) + Split(b);
      } else {
        PrependKeepsRest(a[0], rest, Split(b));
      }
    }
  }

  lemma {:induction false} SplitCountsSlashes(s: string)
    requires '/' in s
    ensures |Split(s)| >= 2
  {
    if s[0] != '/' {
      SplitCountsSlashes(s[1..]);
    }
  }

  // ----- Numbers -------------------------------------------------------------------------------

  const MAX_DIGITS := 4300

  predicate IsDigit(c: char) {
    '0' <= c <= '9'
  }

  predicate IsSpace(c: char) {
    c == ' ' || '\t' <= c <= '\r'
  }

  function StripLeft(s: string): string {
    if s != "" && IsSpace(s[0]) then StripLeft(s[1..]) else s
  }

  function StripRight(s: string): string {
    if s != "" && IsSpace(s[|s| - 1]) then StripRight(s[..|s| - 1]) else s
  }

  function DigitValue(c: char): nat
    requires IsDigit(c)
  {
    c as int - '0' as int
  }

  /** Digits, with single underscores allowed between them. */
  function Digits(s: string): Option<int> {
    if s == "" || !IsDigit(s[|s| - 1]) then None
    else if |s| == 1 then Some(DigitValue(s[0]))
    else
      var init := s[..|s| - 1];
      var rest := if init[|init| - 1] == '_' then init[..|init| - 1] else init;
      match Digits(rest)
      case None => None
      case Some(v) => Some(10 * v + DigitValue(s[|s| - 1]))
  }

  function CountDigits(s: string): nat {
    if s == "" then 0 else CountDigits(s[..|s| - 1]) + if IsDigit(s[|s| - 1]) then 1 else 0
  }

  /** Python's `int` on ASCII text: surrounding space, one sign, underscores, a length cap. */
  function ParseInt(s: string): Option<int> {
    var t := StripRight(StripLeft(s));
    var signed := t != "" && (t[0] == '+' || t[0] == '-');
    var body := if signed then t[1..] else t;
    match Digits(body)
    case None => None
    case Some(v) =>
      if CountDigits(body) > MAX_DIGITS then None
      else if signed && t[0] == '-' then Some(-v) else Some(v)
  }

  /** Decimal printing of a natural number. */
  function Print(n: nat): (s: string)
    ensures s != "" && forall c | c in s :: IsDigit(c)
  {
    var last := [('0' as int + n % 10) as char];
    if n < 10 then last else Print(n / 10) + last
  }

  lemma {:induction false} DigitsUndoPrint(n: nat)
    ensures Digits(Print(n)) == Some(n)
  {
    if n >= 10 {
      DigitsUndoPrint(n / 10);
      var front := Print(n / 10);
      assert Print(n)[..|Print(n)| - 1] == front;
      assert front[|front| - 1] in front;
    }
  }

  lemma {:induction false} AllDigitsCounted(s: string)
    requires forall c | c in s :: IsDigit(c)
    ensures CountDigits(s) == |s|
  {
    if s != "" {
      AllDigitsCounted(s[..|s| - 1]);
      assert s[|s| - 1] in s;
    }
  }

  /** Parsing undoes printing exactly as far as the interpreter's length cap. */
  lemma ParseUndoesPrint(n: nat)
    ensures ParseInt(Print(n)) == if |Print(n)| <= MAX_DIGITS then Some(n) else None
  {
    var s := Print(n);
    assert s[0] in s && s[|s| - 1] in s;
    assert StripRight(StripLeft(s)) == s;
    DigitsUndoPrint(n);
    AllDigitsCounted(s);
  }

  const BIGINT_MAX := 0x7fff_ffff_ffff_ffff

  function Pow10(k: nat): nat {
    if k == 0 then 1 else 10 * Pow10(k - 1)
  }

  lemma {:induction false} PrintLength(n: nat, k: nat)
    requires k >= 1 && n < Pow10(k)
    ensures |Print(n)| <= k
  {
    if n >= 10 {
      assert k > 1;
      PrintLength(n / 10, k - 1);
    }
  }

  /** Every id a BIGINT column can hold is far below the cap. */
  lemma BigintPrints(n: nat)
    requires n <= BIGINT_MAX
    ensures |Print(n)| <= 19
  {
    assert Pow10(5) == 100000;
    assert Pow10(10) == 100000 * Pow10(5);
    assert Pow10(15) == 100000 * Pow10(10);
    assert Pow10(19) == 10000 * Pow10(15);
    PrintLength(n, 19);
  }

  // ----- The contract --------------------------------------------------------------------------

  function GpsTopic(prefix: string, id: nat): string {
    prefix + "/" + Print(id) + "/gps"
  }

  function SubscriptionTopic(prefix: string): string {
    prefix + "/+/gps"
  }

  function ParseTopic(topic: string, prefix: string): Option<int> {
    var parts := Split(topic);
    if |parts| != 3 || parts[0] != prefix || parts[2] != "gps" then None
    else
      match ParseInt(parts[1])
      case None => None
      case Some(id) => if id >= 1 then Some(id) else None
  }

  lemma SplitGpsTopic(prefix: string, middle: string)
    requires '/' !in middle
    ensures Split(prefix + "/" + middle + "/gps") == Split(prefix) + [middle, "gps"]
  {
    assert prefix + "/" + middle + "/gps" == prefix + "/" + (middle + "/" + "gps");
    SplitAtSlash(prefix, middle + "/" + "gps");
    SplitAtSlash(middle, "gps");
    SplitPlain(middle);
    SplitPlain("gps");
    assert Split(prefix) + ([middle] + ["gps"]) == Split(prefix) + [middle, "gps"];
  }

  /** The topic of a vehicle parses back to its id exactly when the configured prefix has no
      slash (and the id is within the interpreter's cap); otherwise the topic is refused. */
  lemma TopicRoundTrip(prefix: string, id: nat)
    requires id >= 1
    ensures ParseTopic(GpsTopic(prefix, id), prefix) ==
              if '/' !in prefix && |Print(id)| <= MAX_DIGITS then Some(id) else None
  {
    assert '/' !in Print(id);
    SplitGpsTopic(prefix, Print(id));
    ParseUndoesPrint(id);
    if '/' in prefix {
      SplitCountsSlashes(prefix);
    } else {
      SplitPlain(prefix);
    }
  }

  /** Two vehicles never share a topic. */
  lemma TopicsDistinct(prefix: string, a: nat, b: nat)
    requires GpsTopic(prefix, a) == GpsTopic(prefix, b)
    ensures a == b
  {
    assert '/' !in Print(a) && '/' !in Print(b);
    SplitGpsTopic(prefix, Print(a));
    SplitGpsTopic(prefix, Print(b));
    var n := |Split(prefix)|;
    assert (Split(prefix) + [Print(a), "gps"])[n] == (Split(prefix) + [Print(b), "gps"])[n];
    DigitsUndoPrint(a);
    DigitsUndoPrint(b);
  }

  // ----- Subscription --------------------------------------------------------------------------

  /** Filter matching level by level, section 4.7.1 of MQTT 3.1.1. */
  predicate LevelsMatch(filter: seq<string>, topic: seq<string>) {
    if filter == [] then topic == []
    else if filter[0] == "#" then |filter| == 1
    else topic != [] && (filter[0] == "+" || filter[0] == topic[0]) && LevelsMatch(filter[1..], topic[1..])
  }

  /** Section 4.7.2 of MQTT 3.1.1: a leading wildcard does not match a topic starting with $. */
  predicate Matches(filter: string, topic: string) {
    && LevelsMatch(Split(filter), Split(topic))
    && !(topic != "" && topic[0] == '$' && filter != "" && (filter[0] == '+' || filter[0] == '#'))
  }

  predicate TopicName(topic: string) {
    topic != "" && '+' !in topic && '#' !in topic
  }

  lemma SubscriptionLevels(prefix: string)
    requires '/' !in prefix
    ensures Split(SubscriptionTopic(prefix)) == [prefix, "+", "gps"]
  {
    SplitGpsTopic(prefix, "+");
    SplitPlain(prefix);
    assert prefix + "/" + "+" + "/gps" == prefix + "/+/gps";
  }

  lemma ThreeLevelsMatch(prefix: string, t: seq<string>)
    requires prefix != "#" && prefix != "+"
    ensures LevelsMatch([prefix, "+", "gps"], t) <==> |t| == 3 && t[0] == prefix && t[2] == "gps"
  {
    var f := [prefix, "+", "gps"];
    assert f[1..] == ["+", "gps"] && ["+", "gps"][1..] == ["gps"];
    LastLevelMatches("gps", if |t| >= 2 then t[1..][1..] else []);
    assert |t| >= 2 ==> (LevelsMatch(["+", "gps"], t[1..]) <==> LevelsMatch(["gps"], t[1..][1..]));
    assert |t| >= 3 ==> t[1..][1..][0] == t[2];
  }

  lemma LastLevelMatches(level: string, t: seq<string>)
    requires level != "#" && level != "+"
    ensures LevelsMatch([level], t) <==> |t| == 1 && t[0] == level
  {
    assert [level][1..] == [];
    assert t != [] ==> (t[1..] == [] <==> |t| == 1);
  }

  /** Levels contain no slash, and only characters of the whole. */
  lemma {:induction false} LevelsAreParts(s: string)
    ensures forall i | 0 <= i < |Split(s)| :: '/' !in Split(s)[i] && forall c | c in Split(s)[i] :: c in s
  {
    if s != "" {
      LevelsAreParts(s[1..]);
      assert forall c | c in s[1..] :: c in s;
    }
  }

  /** Whatever the prefix, a published topic that the parser accepts matches the subscription. */
  lemma AcceptedMatches(prefix: string, topic: string)
    requires TopicName(topic) && ParseTopic(topic, prefix).Some?
    ensures Matches(SubscriptionTopic(prefix), topic)
  {
    LevelsAreParts(topic);
    assert Split(topic)[0] == prefix;
    AcceptedAreSubscribed(prefix, topic);
  }

  /** With a plain prefix the parser accepts exactly the published topics that the subscription delivers and whose
      middle level is a number of at least one. */
  lemma AcceptedAreSubscribed(prefix: string, topic: string)
    requires TopicName(topic) && '/' !in prefix && '+' !in prefix && '#' !in prefix
    ensures ParseTopic(topic, prefix).Some? <==>
              && Matches(SubscriptionTopic(prefix), topic) && |Split(topic)| >= 2
              && ParseInt(Split(topic)[1]).Some? && ParseInt(Split(topic)[1]).value >= 1
  {
    SubscriptionLevels(prefix);
    ThreeLevelsMatch(prefix, Split(topic));
    assert SubscriptionTopic(prefix)[0] == if prefix == "" then '/' else prefix[0];
  }
}
