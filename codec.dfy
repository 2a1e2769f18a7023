/**
 * The persistence record: how a task collection becomes text and back.
 * The program delegates this to serde_json (`to_string_pretty`,
 * `from_str`); this module is a stand-in with the same interface and a
 * proved round trip. Each task is written as `due,Weight,length:name;`
 * inside one pair of brackets; the length prefix lets a name hold any
 * character, including the delimiters. As `from_str` does, reading skips
 * JSON whitespace before and after the record.
 */
module Codec {
  import opened Results
  import opened Tasks
  import RustFmt
  import Utf8

  /** The text of one task. */
  function Item(t: Task): string {
    RustFmt.Dec(t.dueDate) + "," + WeightName(t.weight) + "," + RustFmt.Dec(|t.name|) + ":" + t.name + ";"
  }

  function Items(ts: seq<Task>): string {
    if ts == [] then "" else Item(ts[0]) + Items(ts[1..])
  }

  /** `serde_json::to_string_pretty(&tasks)`, in this model's format. */
  function Serialize(ts: seq<Task>): (text: string)
    ensures |text| >= 2 && text[0] == '[' && text[|text| - 1] == ']'
  {
    "[" + Items(ts) + "]"
  }

  /** `json.as_bytes()`: the bytes `store` writes. */
  function Encode(ts: seq<Task>): Utf8.Bytes {
    Utf8.Encode(Serialize(ts))
  }

  /** Splits `s` at its first `d`. */
  function SplitAt(s: string, d: char): (r: Option<(string, string)>)
    ensures r.Some? ==> s == r.value.0 + [d] + r.value.1
    ensures r.None? <==> d !in s
  {
    if s == [] then None
    else if s[0] == d then Some(([], s[1..]))
    else
      match SplitAt(s[1..], d)
      case None => None
      case Some((a, b)) => Some(([s[0]] + a, b))
  }

  /** Reads one task from the front of `s`, returning what follows it. */
  function ParseItem(s: string): (r: Option<(Task, string)>)
    ensures r.Some? ==> |r.value.1| < |s|
  {
    match SplitAt(s, ',')
    case None => None
    case Some((dueText, s1)) =>
      match RustFmt.ParseDec(dueText)
      case None => None
      case Some(due) => ParseWeight(due, s1)
  }

  /** The rest of a task after its due date: `Weight,length:name;`. */
  function ParseWeight(due: int, s: string): (r: Option<(Task, string)>)
    ensures r.Some? ==> |r.value.1| < |s|
  {
    match SplitAt(s, ',')
    case None => None
    case Some((weightText, s2)) =>
      match WeightFromName(weightText)
      case None => None
      case Some(weight) => ParseName(due, weight, s2)
  }

  /** The rest of a task after its weight: `length:name;`. */
  function ParseName(due: int, weight: WorkWeight, s: string): (r: Option<(Task, string)>)
    ensures r.Some? ==> |r.value.1| < |s|
  {
    match SplitAt(s, ':')
    case None => None
    case Some((lengthText, s3)) =>
      match RustFmt.ParseDec(lengthText)
      case None => None
      case Some(n) =>
        if 0 <= n < |s3| && s3[n] == ';' then Some((Task(due, s3[..n], weight), s3[n + 1..])) else None
  }

  function ParseItems(s: string): Option<seq<Task>>
    decreases |s|
  {
    if s == [] then Some([])
    else
      match ParseItem(s)
      case None => None
      case Some((t, rest)) =>
        match ParseItems(rest)
        case None => None
        case Some(ts) => Some([t] + ts)
  }

  /** The whitespace JSON allows around a value: space, tab, line feed, carriage return. */
  predicate IsJsonSpace(c: char) {
    c == ' ' || c == '\t' || c == '\n' || c == '\r'
  }

  /** `s` without its leading JSON whitespace. */
  function TrimStart(s: string): string {
    if s != [] && IsJsonSpace(s[0]) then TrimStart(s[1..]) else s
  }

  /** `s` without its trailing JSON whitespace. */
  function TrimEnd(s: string): string {
    if s != [] && IsJsonSpace(s[|s| - 1]) then TrimEnd(s[..|s| - 1]) else s
  }

  /** `serde_json::from_str(&data)`: the tasks the text holds, or `None` when it is not a valid record. */
  function Parse(text: string): Option<seq<Task>> {
    ParseRecord(TrimEnd(TrimStart(text)))
  }

  /** The record itself, whitespace removed: the tasks between one pair of brackets. */
  function ParseRecord(body: string): Option<seq<Task>> {
    if |body| >= 2 && body[0] == '[' && body[|body| - 1] == ']' then ParseItems(body[1..|body| - 1]) else None
  }

  lemma {:induction false} SplitAtJoined(a: string, d: char, b: string)
    requires d !in a
    ensures SplitAt(a + [d] + b, d) == Some((a, b))
  {
    if a != [] {
      SplitAtJoined(a[1..], d, b);
      assert (a + [d] + b)[1..] == a[1..] + [d] + b;
      assert a == [a[0]] + a[1..];
    }
  }

  lemma ParseItemOfItem(t: Task, rest: string)
    ensures ParseItem(Item(t) + rest) == Some((t, rest))
    ensures Item(t) + rest != []
  {
    var dueText := RustFmt.Dec(t.dueDate);
    var s1 := WeightName(t.weight) + "," + RustFmt.Dec(|t.name|) + ":" + t.name + ";" + rest;
    assert Item(t) + rest == dueText + "," + s1;
    assert ',' !in dueText;
    SplitAtJoined(dueText, ',', s1);
    RustFmt.DecRoundTrip(t.dueDate);
    ParseWeightOf(t, rest);
  }

  lemma ParseWeightOf(t: Task, rest: string)
    ensures ParseWeight(t.dueDate, WeightName(t.weight) + "," + RustFmt.Dec(|t.name|) + ":" + t.name + ";" + rest)
            == Some((t, rest))
  {
    var weightText := WeightName(t.weight);
    var s2 := RustFmt.Dec(|t.name|) + ":" + t.name + ";" + rest;
    assert weightText + "," + RustFmt.Dec(|t.name|) + ":" + t.name + ";" + rest == weightText + "," + s2;
    assert ',' !in weightText;
    SplitAtJoined(weightText, ',', s2);
    ParseNameOf(t, rest);
  }

  lemma ParseNameOf(t: Task, rest: string)
    ensures ParseName(t.dueDate, t.weight, RustFmt.Dec(|t.name|) + ":" + t.name + ";" + rest) == Some((t, rest))
  {
    var lengthText := RustFmt.Dec(|t.name|);
    var s3 := t.name + ";" + rest;
    assert lengthText + ":" + t.name + ";" + rest == lengthText + ":" + s3;
    assert ':' !in lengthText;
    SplitAtJoined(lengthText, ':', s3);
    RustFmt.DecRoundTrip(|t.name|);
    assert s3[..|t.name|] == t.name && s3[|t.name| + 1..] == rest;
  }

  lemma {:induction false} ParseItemsOfItems(ts: seq<Task>)
    ensures ParseItems(Items(ts)) == Some(ts)
  {
    if ts != [] {
      var t, tail := ts[0], ts[1..];
      assert ts == [t] + tail;
      var rest := Items(tail);
      ParseItemOfItem(t, rest);
      ParseItemsOfItems(tail);
      ParseItemsStep(Item(t) + rest, t, rest, tail);
    }
  }

  /** One step of `ParseItems`: a task read from the front, then the tasks of what follows. */
  lemma ParseItemsStep(s: string, t: Task, rest: string, ts: seq<Task>)
    requires s != [] && ParseItem(s) == Some((t, rest)) && ParseItems(rest) == Some(ts)
    ensures ParseItems(s) == Some([t] + ts)
  {
  }

  /** Reading back the written text restores the same tasks in the same order. */
  lemma ParseSerialize(ts: seq<Task>)
    ensures Parse(Serialize(ts)) == Some(ts)
  {
    var text := Serialize(ts);
    TrimStartSpaces([], text);
    TrimEndSpaces(text, []);
    assert [] + text == text && text + [] == text;
    assert text[1..|text| - 1] == Items(ts);
    ParseItemsOfItems(ts);
  }

  /** Whitespace around the written text, such as the final newline an editor adds, does not change what it holds. */
  lemma ParseSerializePadded(ts: seq<Task>, pre: string, post: string)
    requires forall i :: 0 <= i < |pre| ==> IsJsonSpace(pre[i])
    requires forall i :: 0 <= i < |post| ==> IsJsonSpace(post[i])
    ensures Parse(pre + Serialize(ts) + post) == Some(ts)
  {
    var text := Serialize(ts);
    var whole := pre + text + post;
    assert TrimStart(whole) == text + post by {
      assert whole == pre + (text + post);
      TrimStartSpaces(pre, text + post);
    }
    TrimEndSpaces(text, post);
    assert TrimEnd(TrimStart(text)) == text by {
      TrimStartSpaces([], text);
      TrimEndSpaces(text, []);
      assert [] + text == text && text + [] == text;
    }
    ParseSerialize(ts);
  }

  lemma {:induction false} TrimStartSpaces(pre: string, s: string)
    requires forall i :: 0 <= i < |pre| ==> IsJsonSpace(pre[i])
    requires s != [] && !IsJsonSpace(s[0])
    ensures TrimStart(pre + s) == s
    decreases |pre|
  {
    if pre != [] {
      assert (pre + s)[1..] == pre[1..] + s;
      TrimStartSpaces(pre[1..], s);
    }
  }

  lemma {:induction false} TrimEndSpaces(s: string, post: string)
    requires forall i :: 0 <= i < |post| ==> IsJsonSpace(post[i])
    requires s != [] && !IsJsonSpace(s[|s| - 1])
    ensures TrimEnd(s + post) == s
    decreases |post|
  {
    if post != [] {
      var init := post[..|post| - 1];
      assert (s + post)[..|s + post| - 1] == s + init;
      TrimEndSpaces(s, init);
    }
  }

  /** The written bytes are well-formed UTF-8 for that text, and never empty (even for no tasks). */
  lemma DecodeEncoded(ts: seq<Task>)
    ensures Utf8.Decode(Encode(ts)) == Some(Serialize(ts))
    ensures |Encode(ts)| > 0
  {
    Utf8.DecodeEncode(Serialize(ts));
    Utf8.EncodeEmpty(Serialize(ts));
  }

  /**
   * Text whose first character after any whitespace is not `[`, such as
   * "zzqx", does not decode: a task collection is always an array.
   */
  lemma ParseRejects(text: string, k: nat)
    requires k < |text| && !IsJsonSpace(text[k]) && text[k] != '['
    requires forall i :: 0 <= i < k ==> IsJsonSpace(text[i])
    ensures Parse(text) == None
  {
    TrimStartAt(text, k);
    TrimEndKeepsFront(text[k..]);
  }

  /** Removing the leading whitespace of `text` leaves it from its first other character, at `k`, on. */
  lemma {:induction false} TrimStartAt(text: string, k: nat)
    requires k < |text| && !IsJsonSpace(text[k])
    requires forall i :: 0 <= i < k ==> IsJsonSpace(text[i])
    ensures TrimStart(text) == text[k..]
    decreases k
  {
    if k > 0 {
      var tail := text[1..];
      assert tail[k - 1] == text[k];
      assert forall i :: 0 <= i < k - 1 ==> tail[i] == text[i + 1];
      TrimStartAt(tail, k - 1);
      assert tail[k - 1..] == text[k..];
    }
  }

  /** Removing trailing whitespace keeps a first character that is not whitespace. */
  lemma {:induction false} TrimEndKeepsFront(s: string)
    requires s != [] && !IsJsonSpace(s[0])
    ensures TrimEnd(s) != [] && TrimEnd(s)[0] == s[0]
    decreases |s|
  {
    if IsJsonSpace(s[|s| - 1]) {
      TrimEndKeepsFront(s[..|s| - 1]);
    }
  }
}
