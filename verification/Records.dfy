/** Writing a key of a test record into its file and loading it again
    (binr/r2r/load.c:24-98, 114-176, binr/r2r/interact.inc.c:47-82).  Texts hold no NUL. */
module Records {
  import opened Lists

  /** strchr from i on: the first place of a character, or the end of the text. */
  function Find(s: string, c: char, i: nat): (r: nat)
    requires i <= |s|
    ensures i <= r <= |s| && (r < |s| ==> s[r] == c) && forall j :: i <= j < r ==> s[j] != c
    decreases |s| - i
  {
    if i == |s| || s[i] == c then i else Find(s, c, i + 1)
  }

  predicate StartsWith(s: string, t: string) { |t| <= |s| && s[..|t|] == t }

  /** A line without the carriage return that may end it. */
  function Strip(line: string): string {
    if line != "" && line[|line| - 1] == '\r' then line[..|line| - 1] else line
  }

  /** readline: the line at the cursor, and the cursor behind it, if another line follows.  Only a
      line that a newline ends is stripped. */
  function ReadLine(buf: string): (string, Option<string>) {
    var end := Find(buf, '\n', 0);
    if end < |buf| then (Strip(buf[..end]), Some(buf[end + 1..])) else (buf, None)
  }

  /** The lines up to one that starts with the token, each with a newline behind it; the cursor
      behind that line; and how many lines were read. */
  datatype Body = Body(value: Option<string>, rest: Option<string>, lines: nat)

  function ReadBody(text: string, token: string): Body
    decreases |text|
  {
    var (line, rest) := ReadLine(text);
    if StartsWith(line, token) then Body(Some(""), rest, 1)
    else if rest.None? then Body(None, None, 1)
    else
      var b := ReadBody(rest.value, token);
      Body(if b.value.Some? then Some(line + "\n" + b.value.value) else None, b.rest, b.lines + 1)
  }

  predicate Quoted(val: string) { |val| > 1 && val[0] == '\'' && val[|val| - 1] == '\'' }

  /** The result of read_string_val: the value, the cursor, the line number. */
  datatype Field = Field(value: Option<string>, next: Option<string>, line: nat)

  function FieldOf(next: Option<string>, val: string, line: nat): Field {
    if Quoted(val) then Field(None, next, line)
    else if StartsWith(val, "<<") then
      if val == "<<" || next.None? then Field(None, next, line)
      else var b := ReadBody(next.value, val[2..]); Field(b.value, b.rest, line + b.lines)
    else Field(Some(val), next, line)
  }

  method ReadStringVal(next: Option<string>, val: string, line: nat) returns (r: Field)
    ensures r == FieldOf(next, val, line)
  {
    if |val| > 0 && val[0] == '\'' {
      if |val| > 1 && val[|val| - 1] == '\'' { return Field(None, next, line); }
    }
    if |val| >= 2 && val[0] == '<' && val[1] == '<' {
      assert StartsWith(val, "<<");
      var token := val[2..];
      if token == "" {
        assert val == "<<";
        return Field(None, next, line);
      }
      var sb, cursor, n := "", next, line;
      assert next.Some? ==> forall v: string :: "" + v == v;
      while cursor.Some?
        invariant cursor.None? ==> FieldOf(next, val, line) == Field(None, None, n) || (next.None? && n == line)
        invariant cursor.Some? ==> next.Some?
        invariant cursor.Some? ==> Continues(ReadBody(next.value, token), line, sb, n, ReadBody(cursor.value, token))
        decreases if cursor.Some? then 1 + |cursor.value| else 0
      {
        var (l, rest) := ReadLine(cursor.value);
        n := n + 1;
        assert sb + "" == sb && forall v: string :: (sb + l + "\n") + v == sb + (l + "\n" + v);
        if StartsWith(l, token) { return Field(Some(sb), rest, n); }
        sb := sb + l + "\n";
        cursor := rest;
      }
      return Field(None, None, n);
    }
    r := Field(Some(val), next, line);
  }

  /** Reading on from a later cursor, with sb collected so far, gives the whole body. */
  ghost predicate Continues(whole: Body, line: nat, sb: string, n: nat, part: Body) {
    && whole.rest == part.rest && line + whole.lines == n + part.lines
    && whole.value == if part.value.Some? then Some(sb + part.value.value) else None
  }

  /** A string key as the loader leaves it: its value and the lines [begin, end) it took. */
  datatype Loaded = Loaded(key: string, value: Option<string>, begin: nat, end: nat, next: Option<string>)

  /** The string-key branch of r2r_load_cmd_test_file for the line at the cursor; line numbers
      start at 1. */
  function LoadField(buf: string, line0: nat): Loaded {
    var (line, next) := ReadLine(buf);
    var eq := Find(line, '=', 0);
    if eq == |line| then Loaded(line, None, line0 + 1, line0 + 2, next)
    else
      var f := FieldOf(next, line[eq + 1..], line0 + 1);
      Loaded(line[..eq], f.value, line0 + 1, f.line + 1, f.next)
  }

  /** format_cmd_kv. */
  function Format(key: string, val: string): string {
    if '\n' in val then key + "=<<EOF\n" + val + "EOF" else key + "=" + val
  }

  function Newlines(s: string): nat {
    if s == "" then 0 else (if s[0] == '\n' then 1 else 0) + Newlines(s[1..])
  }

  /** Only whole lines, none of which starts with EOF or ends with a carriage return. */
  predicate Clean(v: string)
    decreases |v|
  {
    v == "" ||
    (var end := Find(v, '\n', 0);
     end < |v| && !StartsWith(v[..end], "EOF") && Strip(v[..end]) == v[..end] && Clean(v[end + 1..]))
  }

  /** The values that survive being written and loaded again. */
  predicate Storable(val: string) {
    if '\n' in val then Clean(val) else !Quoted(val) && !StartsWith(val, "<<") && Strip(val) == val
  }

  predicate Key(key: string) { '=' !in key && '\n' !in key && '\r' !in key }

  lemma FindAt(a: string, c: char, b: string)
    requires c !in a
    ensures Find(a + [c] + b, c, 0) == |a|
    ensures (a + [c] + b)[..|a|] == a && (a + [c] + b)[|a| + 1..] == b
  {
    var s := a + [c] + b;
    forall j | 0 <= j < |a| ensures s[j] != c { assert s[j] == a[j]; }
    assert s[|a|] == c;
  }

  lemma ReadLineAt(a: string, b: string)
    requires '\n' !in a
    ensures ReadLine(a + "\n" + b) == (Strip(a), Some(b))
  {
    FindAt(a, '\n', b);
  }

  lemma {:induction false} NewlinesConcat(a: string, b: string)
    ensures Newlines(a + b) == Newlines(a) + Newlines(b)
  {
    if a == "" { assert a + b == b; } else { assert (a + b)[1..] == a[1..] + b; NewlinesConcat(a[1..], b); }
  }

  lemma {:induction false} NoNewlines(a: string)
    requires '\n' !in a
    ensures Newlines(a) == 0
  {
    if a != "" { NoNewlines(a[1..]); }
  }

  lemma NewlinesLine(f: string, w: string)
    requires '\n' !in f
    ensures Newlines(f + "\n" + w) == Newlines(w) + 1
  {
    NewlinesConcat(f + "\n", w);
    NewlinesConcat(f, "\n");
    NoNewlines(f);
  }

  /** A body that was read is empty or ends with a newline. */
  lemma {:induction false} BodyEnds(text: string, token: string)
    ensures ReadBody(text, token).value.Some? ==>
      var v := ReadBody(text, token).value.value; v == "" || v[|v| - 1] == '\n'
    decreases |text|
  {
    var (line, rest) := ReadLine(text);
    if !StartsWith(line, token) && rest.Some? { BodyEnds(rest.value, token); }
  }

  /** The first line of a text that has one. */
  lemma FirstLine(v: string) returns (f: string, w: string)
    requires '\n' in v
    ensures '\n' !in f && v == f + "\n" + w && f == v[..Find(v, '\n', 0)] && w == v[Find(v, '\n', 0) + 1..]
    ensures Find(v, '\n', 0) < |v|
  {
    var end := Find(v, '\n', 0);
    var j :| 0 <= j < |v| && v[j] == '\n';
    f, w := v[..end], v[end + 1..];
    assert v == f + "\n" + w;
  }

  lemma BodyStep(f: string, tail: string)
    requires '\n' !in f
    ensures ReadBody(f + "\n" + tail, "EOF") ==
      if StartsWith(Strip(f), "EOF") then Body(Some(""), Some(tail), 1)
      else var b := ReadBody(tail, "EOF");
           Body(if b.value.Some? then Some(Strip(f) + "\n" + b.value.value) else None, b.rest, b.lines + 1)
  {
    ReadLineAt(f, tail);
  }

  lemma Regroup(f: string, w: string, rest: string)
    ensures (f + "\n" + w) + "EOF\n" + rest == f + "\n" + (w + "EOF\n" + rest)
  {
  }

  lemma {:induction false} CleanBody(v: string, rest: string)
    requires Clean(v)
    ensures ReadBody(v + "EOF\n" + rest, "EOF") == Body(Some(v), Some(rest), Newlines(v) + 1)
    decreases |v|
  {
    if v == "" {
      assert v + "EOF\n" + rest == "EOF" + "\n" + rest;
      ReadLineAt("EOF", rest);
    } else {
      assert '\n' in v;
      var f, w := FirstLine(v);
      assert v + "EOF\n" + rest == f + "\n" + (w + "EOF\n" + rest);
      ReadLineAt(f, w + "EOF\n" + rest);
      CleanBody(w, rest);
      NewlinesLine(f, w);
    }
  }

  lemma CleanFrom(v: string, f: string, w: string)
    requires '\n' !in f && v == f + "\n" + w && !StartsWith(f, "EOF") && Strip(f) == f && Clean(w)
    ensures Clean(v)
  {
    FindAt(f, '\n', w);
  }

  lemma {:induction false} BodyClean(v: string, text: string, rest: string)
    requires text == v + "EOF\n" + rest && ReadBody(text, "EOF").value == Some(v)
    ensures Clean(v)
    decreases |v|
  {
    BodyEnds(text, "EOF");
    if v != "" {
      var f, w := FirstLine(v);
      var tail := w + "EOF\n" + rest;
      Regroup(f, w, rest);
      LineClean(f, w, v, tail, text);
      BodyClean(w, tail, rest);
      CleanFrom(v, f, w);
    }
  }

  lemma LineClean(f: string, w: string, v: string, tail: string, text: string)
    requires '\n' !in f && v == f + "\n" + w && text == f + "\n" + tail && ReadBody(text, "EOF").value == Some(v)
    ensures !StartsWith(f, "EOF") && Strip(f) == f && ReadBody(tail, "EOF").value == Some(w)
  {
    BodyStep(f, tail);
    var b := ReadBody(tail, "EOF");
    assert v != "";
    SameStart(Strip(f), b.value.value, f, w);
  }

  /** A stripped line followed by a newline is not the line that was stripped. */
  lemma SameStart(g: string, x: string, f: string, w: string)
    requires g == Strip(f) && '\n' !in f && g + "\n" + x == f + "\n" + w
    ensures g == f && x == w
  {
    assert (g + "\n" + x)[|g|] == '\n';
    assert (g + "\n" + x)[|g| + 1..] == x && (f + "\n" + w)[|f| + 1..] == w;
  }

  lemma KeyLine(key: string, val: string)
    requires Key(key)
    ensures Find(key + "=" + val, '=', 0) == |key|
    ensures (key + "=" + val)[..|key|] == key && (key + "=" + val)[|key| + 1..] == val
    ensures Strip(key + "=" + val) == key + "=" + Strip(val)
  {
    FindAt(key, '=', val);
  }

  /** A value of one line. */
  lemma ReloadLine(key: string, val: string, rest: string, line0: nat)
    requires Key(key) && '\n' !in val
    ensures var r := LoadField(Format(key, val) + "\n" + rest, line0);
            && (r.value == Some(val) <==> Storable(val))
            && (Storable(val) ==> r == Loaded(key, Some(val), line0 + 1, line0 + 2, Some(rest)))
  {
    ReadLineAt(key + "=" + val, rest);
    KeyLine(key, val);
    KeyLine(key, Strip(val));
    var v := Strip(val);
    assert StartsWith(v, "<<") && v != "<<" ==> StartsWith(val, "<<");
    if StartsWith(v, "<<") { BodyEnds(rest, v[2..]); }
  }

  lemma HeaderLine(key: string, val: string, rest: string)
    requires Key(key) && '\n' in val
    ensures ReadLine(Format(key, val) + "\n" + rest) == (key + "=" + "<<EOF", Some(val + "EOF\n" + rest))
  {
    var header := key + "=" + "<<EOF";
    assert Format(key, val) + "\n" + rest == header + "\n" + (val + "EOF\n" + rest);
    ReadLineAt(header, val + "EOF\n" + rest);
    assert Strip(header) == header;
  }

  lemma HeaderField(next: string, line: nat)
    ensures FieldOf(Some(next), "<<EOF", line) ==
      var b := ReadBody(next, "EOF"); Field(b.value, b.rest, line + b.lines)
  {
    assert "<<EOF"[2..] == "EOF";
  }

  /** A value of several lines. */
  lemma ReloadLines(key: string, val: string, rest: string, line0: nat)
    requires Key(key) && '\n' in val
    ensures var r := LoadField(Format(key, val) + "\n" + rest, line0);
            && (r.value == Some(val) <==> Storable(val))
            && (Storable(val) ==> r == Loaded(key, Some(val), line0 + 1, line0 + Newlines(val) + 3, Some(rest)))
  {
    var body := val + "EOF\n" + rest;
    HeaderLine(key, val, rest);
    KeyLine(key, "<<EOF");
    HeaderField(body, line0 + 1);
    var b := ReadBody(body, "EOF");
    assert LoadField(Format(key, val) + "\n" + rest, line0) ==
           Loaded(key, b.value, line0 + 1, line0 + 1 + b.lines + 1, b.rest);
    if Clean(val) { CleanBody(val, rest); }
    if b.value == Some(val) { BodyClean(val, body, rest); }
  }

  lemma FormatLines(key: string, val: string)
    requires Key(key)
    ensures Newlines(Format(key, val)) == if '\n' in val then Newlines(val) + 1 else 0
  {
    if '\n' in val {
      assert Format(key, val) == (key + "=<<EOF") + "\n" + (val + "EOF");
      NewlinesLine(key + "=<<EOF", val + "EOF");
      NewlinesConcat(val, "EOF");
      NoNewlines("EOF");
    } else {
      NoNewlines(key + "=" + val);
    }
  }

  /** A value written and loaded again comes back exactly if it is storable; then the loader's line
      range is that of the lines printed, and it goes on right behind them. */
  lemma Reload(key: string, val: string, rest: string, line0: nat)
    requires Key(key)
    ensures var r := LoadField(Format(key, val) + "\n" + rest, line0);
            && (r.value == Some(val) <==> Storable(val))
            && (Storable(val) ==> r.key == key && r.begin == line0 + 1 && r.next == Some(rest)
                                  && r.end - r.begin == Newlines(Format(key, val)) + 1)
  {
    FormatLines(key, val);
    if '\n' in val { ReloadLines(key, val, rest, line0); } else { ReloadLine(key, val, rest, line0); }
  }

  // ---------------------------------------------------------------- replace_lines

  /** The place k lines further down, if there are that many newlines. */
  function Skip(s: string, i: nat, k: nat): Option<nat>
    requires i <= |s|
    ensures Skip(s, i, k).Some? ==> i <= Skip(s, i, k).value <= |s|
    decreases k
  {
    if k == 0 then Some(i)
    else if Find(s, '\n', i) == |s| then None
    else Skip(s, Find(s, '\n', i) + 1, k - 1)
  }

  function Minus(a: nat, b: nat): nat { if a > b then a - b else 0 }

  /** replace_lines: lines are counted from 1, and a range may reach past the end of the text. */
  method ReplaceLines(src: string, from: nat, to: nat, news: string) returns (r: Option<string>)
    ensures r == match Skip(src, 0, Minus(from, 1))
      case None => None
      case Some(begin) =>
        Some(src[..begin] + news + "\n" +
             match Skip(src, begin, Minus(to, if from > 0 then from else 1))
             case None => ""
             case Some(end) => src[end..])
  {
    var begin: nat, line: nat := 0, 1;
    while line < from
      invariant 1 <= line && begin <= |src| && (from > 0 ==> line <= from) && (from == 0 ==> line == 1)
      invariant Skip(src, begin, Minus(from, line)) == Skip(src, 0, Minus(from, 1))
    {
      var nl := Find(src, '\n', begin);
      if nl == |src| { return None; }
      begin, line := nl + 1, line + 1;
    }
    ghost var first := line;
    var end: nat, found := begin, true;
    while line < to
      invariant first <= line && begin <= end <= |src| && found
      invariant Skip(src, end, Minus(to, line)) == Skip(src, begin, Minus(to, first))
    {
      var nl := Find(src, '\n', end);
      if nl == |src| {
        found := false;
        break;
      }
      end, line := nl + 1, line + 1;
    }
    r := Some(src[..begin] + news + "\n" + if found then src[end..] else "");
  }

  lemma FindLine(before: string, f: string, tail: string)
    requires '\n' !in f
    ensures Find(before + (f + "\n") + tail, '\n', |before|) == |before + f|
  {
    var s := before + (f + "\n") + tail;
    forall j | |before| <= j < |before + f| ensures s[j] != '\n' { assert s[j] == f[j - |before|]; }
    assert s[|before + f|] == '\n';
  }

  /** A text of whole lines is skipped exactly. */
  lemma {:induction false} SkipLines(before: string, a: string, rest: string)
    requires a == "" || a[|a| - 1] == '\n'
    ensures Skip(before + a + rest, |before|, Newlines(a)) == Some(|before + a|)
    decreases |a|
  {
    if a != "" {
      var f, w := FirstLine(a);
      NewlinesLine(f, w);
      assert before + a + rest == before + (f + "\n") + (w + rest);
      FindLine(before, f, w + rest);
      SkipLines(before + (f + "\n"), w, rest);
      assert before + a + rest == (before + (f + "\n")) + w + rest;
    }
  }

  lemma SkipBefore(before: string, rest: string)
    requires before == "" || before[|before| - 1] == '\n'
    ensures Skip(before + rest, 0, Newlines(before)) == Some(|before|)
  {
    assert "" + before + rest == before + rest;
    SkipLines("", before, rest);
  }

  lemma SkipThrough(before: string, mid: string, rest: string)
    ensures Skip(before + (mid + "\n") + rest, |before|, Newlines(mid) + 1) == Some(|before| + |mid| + 1)
  {
    NewlinesConcat(mid, "\n");
    SkipLines(before, mid + "\n", rest);
  }

  lemma SkipRecord(before: string, mid: string, rest: string)
    requires before == "" || before[|before| - 1] == '\n'
    ensures var src := before + mid + "\n" + rest;
            && Skip(src, 0, Newlines(before)) == Some(|before|)
            && Skip(src, |before|, Newlines(mid) + 1) == Some(|before| + |mid| + 1)
            && src[..|before|] == before && src[|before| + |mid| + 1..] == rest
  {
    var src := before + mid + "\n" + rest;
    assert src == before + (mid + "\n" + rest);
    SkipBefore(before, mid + "\n" + rest);
    assert src == before + (mid + "\n") + rest;
    SkipThrough(before, mid, rest);
  }

  /** replace_lines on the lines of one record: everything before and behind them is kept. */
  method ReplaceRecord(before: string, mid: string, rest: string, news: string) returns (r: Option<string>)
    requires before == "" || before[|before| - 1] == '\n'
    ensures r == Some(before + news + "\n" + rest)
  {
    var from := Newlines(before) + 1;
    SkipRecord(before, mid, rest);
    r := ReplaceLines(before + mid + "\n" + rest, from, from + Newlines(mid) + 1, news);
  }

  /** Rewriting a record in its own lines leaves everything before and behind it alone; and what is
      written there loads again as the new value, with its own line range. */
  method Rewrite(before: string, was: string, rest: string, key: string, val: string) returns (r: Option<string>)
    requires (before == "" || before[|before| - 1] == '\n') && Key(key) && Storable(val)
    ensures r == Some(before + Format(key, val) + "\n" + rest)
    ensures var l := LoadField(Format(key, val) + "\n" + rest, Newlines(before));
            l.value == Some(val) && l.next == Some(rest) && l.end - l.begin == Newlines(Format(key, val)) + 1
  {
    r := ReplaceRecord(before, was, rest, Format(key, val));
    Reload(key, val, rest, Newlines(before));
  }

  method LoadCanonical(key: string, val: string, rest: string, line0: nat) returns (l: Loaded)
    requires Key(key) && Storable(val)
    ensures l.key == key && l.value == Some(val)
    ensures l.begin == line0 + 1 && l.end == l.begin + Newlines(Format(key, val)) + 1
  {
    Reload(key, val, rest, line0);
    l := LoadField(Format(key, val) + "\n" + rest, line0);
  }

  /** Rewriting a canonical record with the value loaded from it, in the lines the loader noted,
      changes nothing. */
  method RewriteItself(before: string, rest: string, key: string, val: string) returns (r: Option<string>)
    requires (before == "" || before[|before| - 1] == '\n') && Key(key) && Storable(val)
    ensures r == Some(before + Format(key, val) + "\n" + rest)
  {
    var l := LoadCanonical(key, val, rest, Newlines(before));
    SkipRecord(before, Format(key, val), rest);
    r := ReplaceLines(before + Format(key, val) + "\n" + rest, l.begin, l.end, Format(l.key, l.value.value));
  }
}
