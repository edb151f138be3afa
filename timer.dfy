/**
 * The timer input of x-editable: an hour/minute/second value and the
 * conversions the editing framework asks of it (dist/inputs-ext/timer/timer.js).
 *
 * A falsy JavaScript value is None. The display is computed from natural
 * fields; the input slots hold strings, exactly as the DOM gives them.
 */
module Timer {
  import opened Wrappers
  import opened Decimal
  import opened HtmlEscape

  /** The widget's value: one hour, minute and second field of type T. */
  datatype TimerValue<T> = TimerValue(hour: T, min: T, sec: T)

  /**
   * A JavaScript object as `for (k in value)` sees it: its enumerable keys in
   * enumeration order, each with its value in the string form that `+` gives it.
   */
  type Record = seq<(string, string)>

  // ---------------------------------------------------------------------------
  // Display (value2html)
  // ---------------------------------------------------------------------------

  /**
   * One field as value2html prepares it: below 10 it gets a leading '0',
   * otherwise it is written as it is.
   */
  function Pad(n: nat): (r: string)
    ensures AllDigits(r) && Value(r) == n
    ensures |r| == if n < 10 then 2 else |Show(n)|
    ensures (r[0] == '0') == (n < 10)
  {
    ValueOfShow(n);
    if n < 10 then
      var r := "0" + Show(n);
      assert r[..1] == "0" && r[..1][..0] == [];
      r
    else
      Show(n)
  }

  /** The three parts, each escaped on its own, joined by ':'. */
  function Render(h: string, m: string, s: string): (r: string)
    ensures NoRawMarkup(r)
  {
    var r := Escape(h) + ":" + Escape(m) + ":" + Escape(s);
    assert forall i | 0 <= i < |r| :: r[i] != '<' && r[i] != '>' && r[i] != Nbsp by {
      forall i | 0 <= i < |r|
        ensures r[i] != '<' && r[i] != '>' && r[i] != Nbsp
      {
        if i < |Escape(h)| {
          assert r[i] == Escape(h)[i];
        } else if i == |Escape(h)| {
        } else if i < |Escape(h)| + 1 + |Escape(m)| {
          assert r[i] == Escape(m)[i - |Escape(h)| - 1];
        } else if i == |Escape(h)| + 1 + |Escape(m)| {
        } else {
          assert r[i] == Escape(s)[i - |Escape(h)| - |Escape(m)| - 2];
        }
      }
    }
    r
  }

  /**
   * The markup value2html writes for a value: safe to insert as HTML, and at
   * least "hh:mm:ss" long.
   */
  function Display(v: TimerValue<nat>): (r: string)
    ensures NoRawMarkup(r) && AmpersandsBeginEntities(r)
    ensures |r| >= 8
  {
    RenderEntities(Pad(v.hour), Pad(v.min), Pad(v.sec));
    Render(Pad(v.hour), Pad(v.min), Pad(v.sec))
  }

  /** The index of the first c in s, or |s| when there is none. */
  function IndexOf(s: string, c: char): (i: nat)
    ensures i <= |s|
    ensures i < |s| ==> s[i] == c
    ensures forall k | 0 <= k < i :: s[k] != c
    decreases |s|
  {
    if s == [] then 0 else if s[0] == c then 0 else 1 + IndexOf(s[1..], c)
  }

  /** Splitting x + [c] + y at its first c gives x and y back when x holds no c. */
  lemma IndexOfSeparator(x: string, c: char, y: string)
    requires c !in x
    ensures var s := x + [c] + y;
      IndexOf(s, c) == |x| && s[..|x|] == x && s[|x| + 1..] == y
  {
    var s := x + [c] + y;
    assert s[|x|] == c;
    assert forall k | 0 <= k < |x| :: s[k] == x[k];
  }

  /** Splits displayed markup at its first two ':' and decodes each part. */
  function ParseDisplay(r: string): (parts: Option<TimerValue<string>>) {
    var i := IndexOf(r, ':');
    if i == |r| then None
    else
      var rest := r[i + 1..];
      var j := IndexOf(rest, ':');
      if j == |rest| then None
      else Some(TimerValue(Unescape(r[..i]), Unescape(rest[..j]), Unescape(rest[j + 1..])))
  }

  /** Every '&' in displayed markup begins a character reference. */
  lemma RenderEntities(h: string, m: string, s: string)
    ensures AmpersandsBeginEntities(Render(h, m, s))
  {
    EscapeEntities(h);
    EscapeEntities(m);
    EscapeEntities(s);
    var colon := ":";
    assert AmpersandsBeginEntities(colon);
    AmpersandsConcat(Escape(h), colon);
    AmpersandsConcat(Escape(h) + colon, Escape(m));
    AmpersandsConcat(Escape(h) + colon + Escape(m), colon);
    AmpersandsConcat(Escape(h) + colon + Escape(m) + colon, Escape(s));
  }

  lemma ParseDisplayJoin(x: string, y: string, z: string)
    requires ':' !in x && ':' !in y
    ensures ParseDisplay(x + [':'] + (y + [':'] + z)) == Some(TimerValue(Unescape(x), Unescape(y), Unescape(z)))
  {
    IndexOfSeparator(x, ':', y + [':'] + z);
    IndexOfSeparator(y, ':', z);
  }

  /** The parts are recovered from the markup: split at ':' and decode each. */
  lemma RenderRoundTrip(h: string, m: string, s: string)
    requires ':' !in h && ':' !in m
    ensures ParseDisplay(Render(h, m, s)) == Some(TimerValue(h, m, s))
  {
    var eh, em, es := Escape(h), Escape(m), Escape(s);
    assert Render(h, m, s) == eh + [':'] + (em + [':'] + es);
    ParseDisplayJoin(eh, em, es);
    UnescapeEscape(h);
    UnescapeEscape(m);
    UnescapeEscape(s);
  }

  /** Markup for two values is the same exactly when the values are. */
  lemma DisplayInjective(v: TimerValue<nat>, w: TimerValue<nat>)
    ensures (Display(v) == Display(w)) == (v == w)
  {
    if Display(v) == Display(w) {
      RenderRoundTrip(Pad(v.hour), Pad(v.min), Pad(v.sec));
      RenderRoundTrip(Pad(w.hour), Pad(w.min), Pad(w.sec));
    }
  }

  lemma EscapeDigits(s: string)
    requires AllDigits(s)
    ensures Escape(s) == s
  {
  }

  /**
   * For fields below 100 the markup is "hh:mm:ss": eight characters, ':' at
   * positions 2 and 5, and the padded fields, unescaped, in between.
   */
  lemma DisplayShape(v: TimerValue<nat>)
    requires v.hour < 100 && v.min < 100 && v.sec < 100
    ensures var r := Display(v);
      |r| == 8 && r[2] == ':' && r[5] == ':' &&
      r[..2] == Pad(v.hour) && r[3..5] == Pad(v.min) && r[6..] == Pad(v.sec)
  {
    ShowBelowHundred(v.hour);
    ShowBelowHundred(v.min);
    ShowBelowHundred(v.sec);
    EscapeDigits(Pad(v.hour));
    EscapeDigits(Pad(v.min));
    EscapeDigits(Pad(v.sec));
  }

  lemma DisplayExample()
    ensures Display(TimerValue(5, 3, 59)) == "05:03:59"
  {
  }

  // ---------------------------------------------------------------------------
  // Comparison string (value2str)
  // ---------------------------------------------------------------------------

  /** One "key:value;" segment. */
  function Segment(key: string, val: string): (r: string) {
    key + ":" + val + ";"
  }

  /** The segments of every entry, in order. */
  function Serialize(rec: Record): (r: string)
    ensures rec == [] <==> r == ""
    ensures rec != [] ==> r[|r| - 1] == ';'
    decreases |rec|
  {
    if rec == [] then "" else Segment(rec[0].0, rec[0].1) + Serialize(rec[1..])
  }

  lemma {:induction false} SerializeSnoc(rec: Record, e: (string, string))
    ensures Serialize(rec + [e]) == Serialize(rec) + Segment(e.0, e.1)
    decreases |rec|
  {
    if rec == [] {
      assert rec + [e] == [e] && [e][1..] == [];
    } else {
      assert (rec + [e])[1..] == rec[1..] + [e];
      SerializeSnoc(rec[1..], e);
    }
  }

  /** Reads "key:value;" segments back; stops at the first incomplete one. */
  function ParseEntries(s: string): (rec: Record)
    decreases |s|
  {
    if s == [] then []
    else
      var i := IndexOf(s, ':');
      if i == |s| then []
      else
        var rest := s[i + 1..];
        var j := IndexOf(rest, ';');
        if j == |rest| then []
        else [(s[..i], rest[..j])] + ParseEntries(rest[j + 1..])
  }

  /** No key holds ':' or ';' and no value holds ';'. */
  predicate Separable(rec: Record) {
    forall i | 0 <= i < |rec| :: ':' !in rec[i].0 && ';' !in rec[i].0 && ';' !in rec[i].1
  }

  /** Reading one segment in front of any text gives its key and value. */
  lemma ParseEntriesSegment(k: string, v: string, tail: string)
    requires ':' !in k && ';' !in v
    ensures ParseEntries(k + [':'] + (v + [';'] + tail)) == [(k, v)] + ParseEntries(tail)
  {
    IndexOfSeparator(k, ':', v + [';'] + tail);
    IndexOfSeparator(v, ';', tail);
  }

  lemma SeparableTail(rec: Record)
    requires rec != [] && Separable(rec)
    ensures Separable(rec[1..])
  {
  }

  /** When the separators do not occur inside keys and values, the string gives the entries back. */
  lemma {:induction false} ParseSerialize(rec: Record)
    requires Separable(rec)
    ensures ParseEntries(Serialize(rec)) == rec
    decreases |rec|
  {
    if rec != [] {
      var k, v := rec[0].0, rec[0].1;
      assert ':' !in k && ';' !in v;
      var tail := Serialize(rec[1..]);
      assert Serialize(rec) == Segment(k, v) + tail;
      assert Segment(k, v) + tail == k + [':'] + (v + [';'] + tail);
      ParseEntriesSegment(k, v, tail);
      SeparableTail(rec);
      ParseSerialize(rec[1..]);
      assert rec == [(k, v)] + rec[1..];
    }
  }

  /**
   * A timer value as `for (k in value)` sees it: the keys hour, min and sec in
   * the order input2value creates them. Fields without ';' make it separable.
   */
  function Entries(v: TimerValue<string>): (r: Record)
    ensures |r| == 3 && [r[0].0, r[1].0, r[2].0] == ["hour", "min", "sec"]
    ensures ';' !in v.hour && ';' !in v.min && ';' !in v.sec ==> Separable(r)
  {
    [("hour", v.hour), ("min", v.min), ("sec", v.sec)]
  }

  /** Numeric fields in the string form JavaScript concatenation gives them. */
  function Shown(v: TimerValue<nat>): (r: TimerValue<string>) {
    TimerValue(Show(v.hour), Show(v.min), Show(v.sec))
  }

  /** The comparison string of a timer value: its three segments in order, not padded. */
  lemma {:induction false} CompareStringShape(v: TimerValue<string>)
    ensures Serialize(Entries(v)) == "hour:" + v.hour + ";min:" + v.min + ";sec:" + v.sec + ";"
  {
    var e := Entries(v);
    assert e[1..][1..][1..] == [];
    assert Serialize(e[1..][1..]) == Segment("sec", v.sec);
    assert Serialize(e[1..]) == Segment("min", v.min) + Segment("sec", v.sec);
    assert Serialize(e) == Segment("hour", v.hour) + Segment("min", v.min) + Segment("sec", v.sec);
  }

  lemma CompareStringExample()
    ensures Serialize(Entries(Shown(TimerValue(1, 2, 3)))) == "hour:1;min:2;sec:3;"
  {
  }

  /**
   * Two timer values whose fields hold no ';' have the same comparison
   * string exactly when they are equal.
   */
  lemma CompareStringDistinguishes(a: TimerValue<string>, b: TimerValue<string>)
    requires ';' !in a.hour && ';' !in a.min && ';' !in a.sec
    requires ';' !in b.hour && ';' !in b.min && ';' !in b.sec
    ensures (Serialize(Entries(a)) == Serialize(Entries(b))) == (a == b)
  {
    if Serialize(Entries(a)) == Serialize(Entries(b)) {
      ParseSerialize(Entries(a));
      ParseSerialize(Entries(b));
    }
  }

  /** The same for numeric fields: equal comparison strings mean equal values. */
  lemma CompareStringDistinguishesNumbers(a: TimerValue<nat>, b: TimerValue<nat>)
    ensures (Serialize(Entries(Shown(a))) == Serialize(Entries(Shown(b)))) == (a == b)
  {
    CompareStringDistinguishes(Shown(a), Shown(b));
    ShowInjective(a.hour, b.hour);
    ShowInjective(a.min, b.min);
    ShowInjective(a.sec, b.sec);
  }

  // ---------------------------------------------------------------------------
  // The widget
  // ---------------------------------------------------------------------------

  /** The element value2html writes into; html is its markup content. */
  class Element {
    var html: string

    constructor (html: string)
      ensures this.html == html
    {
      this.html := html;
    }
  }

  /** The widget, with the values of its three inputs named hour, min and sec. */
  class TimerInput {
    var hour: string
    var min: string
    var sec: string

    /** The inputs of the template start out empty. */
    constructor ()
      ensures hour == "" && min == "" && sec == ""
    {
      hour, min, sec := "", "", "";
    }

    /** Clears the element on a falsy value, otherwise writes the padded, escaped fields. */
    method ValueToHtml(value: Option<TimerValue<nat>>, element: Element)
      modifies element
      ensures element.html == if value.None? then "" else Display(value.value)
    {
      if value.None? {
        element.html := "";
        return;
      }
      var v := value.value;
      var h, m, s := Pad(v.hour), Pad(v.min), Pad(v.sec);
      element.html := Escape(h) + ":" + Escape(m) + ":" + Escape(s);
    }

    /** The markup is never read back into a value. */
    static function HtmlToValue(html: string): (r: Option<TimerValue<string>>)
      ensures r.None?
    {
      None
    }

    /** Concatenates "key:value;" for every key in enumeration order; "" for a falsy value. */
    method ValueToStr(value: Option<Record>) returns (str: string)
      ensures value.None? ==> str == ""
      ensures value.Some? ==> str == Serialize(value.value)
    {
      str := "";
      if value.Some? {
        var rec := value.value;
        for i := 0 to |rec|
          invariant str == Serialize(rec[..i])
        {
          SerializeSnoc(rec[..i], rec[i]);
          assert rec[..i + 1] == rec[..i] + [rec[i]];
          str := str + rec[i].0 + ":" + rec[i].1 + ";";
        }
        assert rec[..|rec|] == rec;
      }
    }

    /** A string is taken as the value unchanged. */
    static function StrToValue(str: string): (r: string)
      ensures r == str
    {
      str
    }

    /** Writes the three fields into their inputs verbatim; a falsy value changes nothing. */
    method ValueToInput(value: Option<TimerValue<string>>)
      modifies this
      ensures value.None? ==> hour == old(hour) && min == old(min) && sec == old(sec)
      ensures value.Some? ==> InputToValue() == value.value
    {
      if value.None? {
        return;
      }
      hour := value.value.hour;
      min := value.value.min;
      sec := value.value.sec;
    }

    /** A new value built from the three inputs' current contents. */
    function InputToValue(): (r: TimerValue<string>)
      reads this
      ensures r.hour == hour && r.min == min && r.sec == sec
    {
      TimerValue(hour, min, sec)
    }
  }
}
