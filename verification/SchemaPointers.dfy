/**
 * The pointers as the report prints them: segments behind slashes, with nothing escaped. When the text
 * still says where a violation is.
 */
module SchemaPointers {
  import opened Options
  import opened JsonSchema
  import opened SchemaInclusion
  import opened SchemaCheck
  import opened SchemaReport
  import opened SchemaSoundness

  function Render(pointer: seq<string>): string {
    if pointer == [] then "" else "/" + pointer[0] + Render(pointer[1..])
  }

  predicate SlashFree(s: string) {
    '/' !in s
  }

  ghost predicate Plainly(pointer: seq<string>) {
    forall s | s in pointer :: SlashFree(s)
  }

  function UpToSlash(s: string): (r: string)
    ensures r <= s && SlashFree(r) && (|r| < |s| ==> s[|r|] == '/')
  {
    if s == "" || s[0] == '/' then "" else [s[0]] + UpToSlash(s[1..])
  }

  /** The segments a reader of the text makes out. */
  function Parse(text: string): seq<string>
    decreases |text|
  {
    if text == "" then [] else
      var segment := UpToSlash(text[1..]);
      [segment] + Parse(text[1 + |segment|..])
  }

  lemma {:induction false} StartsWithSlash(pointer: seq<string>)
    ensures Render(pointer) == "" || Render(pointer)[0] == '/'
    ensures Render(pointer) == "" <==> pointer == []
  {
  }

  lemma {:induction false} UpToNext(s: string, rest: string)
    requires SlashFree(s) && (rest == "" || rest[0] == '/')
    ensures UpToSlash(s + rest) == s
  {
    if s == "" {
      assert s + rest == rest;
    } else {
      assert (s + rest)[1..] == s[1..] + rest;
      assert forall c :: c in s[1..] ==> c in s;
      UpToNext(s[1..], rest);
    }
  }

  lemma {:induction false} ParseStep(s: string, rest: string)
    requires SlashFree(s) && (rest == "" || rest[0] == '/')
    ensures Parse("/" + s + rest) == [s] + Parse(rest)
  {
    hide UpToSlash;
    var text := "/" + s + rest;
    UpToNext(s, rest);
    assert text[1..] == s + rest;
    assert text[1 + |s|..] == rest;
  }

  lemma {:induction false} ParseEmpty()
    ensures Parse("") == []
  {
  }

  lemma {:induction false} ParseRender(pointer: seq<string>)
    requires Plainly(pointer)
    ensures Parse(Render(pointer)) == pointer
  {
    hide Parse;
    if pointer == [] {
      ParseEmpty();
    } else {
      StartsWithSlash(pointer[1..]);
      assert pointer[0] in pointer && forall s :: s in pointer[1..] ==> s in pointer;
      ParseStep(pointer[0], Render(pointer[1..]));
      ParseRender(pointer[1..]);
    }
  }

  lemma {:induction false} ParsePlainly(text: string)
    ensures Plainly(Parse(text))
    decreases |text|
  {
    if text != "" { ParsePlainly(text[1 + |UpToSlash(text[1..])|..]); }
  }

  lemma {:induction false} RenderParse(text: string)
    requires text == "" || text[0] == '/'
    ensures Render(Parse(text)) == text
    decreases |text|
  {
    if text != "" {
      var segment := UpToSlash(text[1..]);
      var rest := text[1 + |segment|..];
      assert rest == "" || rest[0] == '/';
      RenderParse(rest);
      assert text == "/" + segment + rest by { CutText(text, segment); }
      hide UpToSlash, Render;
      RenderStep(segment, Parse(rest));
    }
  }

  lemma {:induction false} CutText(text: string, segment: string)
    requires text != "" && text[0] == '/' && segment <= text[1..]
    ensures text == "/" + segment + text[1 + |segment|..]
  {
    assert segment == text[1..][..|segment|];
  }

  /** The text reads back as the pointer exactly when no segment has a slash in it. */
  lemma {:induction false} ReadsBackExactly(pointer: seq<string>)
    ensures Parse(Render(pointer)) == pointer <==> Plainly(pointer)
  {
    ParsePlainly(Render(pointer));
    if Plainly(pointer) { ParseRender(pointer); }
  }

  // ---- A reader that also turns back the escapes of JSON Pointer ----

  /** RFC 6901, section 4: "~1" stands for a slash, "~0" for a tilde. */
  function Unescape(s: string): (r: string)
    ensures |r| <= |s|
  {
    if s == "" then ""
    else if |s| >= 2 && s[0] == '~' && (s[1] == '0' || s[1] == '1') then [if s[1] == '0' then '~' else '/'] + Unescape(s[2..])
    else [s[0]] + Unescape(s[1..])
  }

  ghost predicate EscapeFree(s: string) {
    forall i :: 0 <= i < |s| - 1 && s[i] == '~' ==> s[i + 1] != '0' && s[i + 1] != '1'
  }

  lemma {:induction false} UnescapeExactly(s: string)
    ensures EscapeFree(s) ==> Unescape(s) == s
    ensures !EscapeFree(s) ==> |Unescape(s)| < |s|
  {
    if s != "" {
      if |s| >= 2 && s[0] == '~' && (s[1] == '0' || s[1] == '1') {
        assert !EscapeFree(s);
      } else {
        UnescapeExactly(s[1..]);
        assert EscapeFree(s) <==> EscapeFree(s[1..]) by {
          if EscapeFree(s) { assert forall i :: 0 <= i < |s[1..]| ==> s[1..][i] == s[i + 1]; }
          if EscapeFree(s[1..]) {
            forall i | 0 <= i < |s| - 1 && s[i] == '~' ensures s[i + 1] != '0' && s[i + 1] != '1' {
              if i > 0 { assert s[1..][i - 1] == s[i] && s[1..][i] == s[i + 1]; }
            }
          }
        }
      }
    }
  }

  function Read(text: string): (r: seq<string>)
    ensures |r| == |Parse(text)| && forall i :: 0 <= i < |r| ==> r[i] == Unescape(Parse(text)[i])
  {
    var segments := Parse(text);
    seq(|segments|, i requires 0 <= i < |segments| => Unescape(segments[i]))
  }

  function Slashes(s: string): nat {
    if s == "" then 0 else (if s[0] == '/' then 1 else 0) + Slashes(s[1..])
  }

  lemma {:induction false} SlashesJoin(s: string, t: string)
    ensures Slashes(s + t) == Slashes(s) + Slashes(t)
  {
    if s == "" {
      assert s + t == t;
    } else {
      assert (s + t)[1..] == s[1..] + t;
      SlashesJoin(s[1..], t);
    }
  }

  lemma {:induction false} NoSlashes(s: string)
    ensures Slashes(s) == 0 <==> SlashFree(s)
  {
    if s != "" {
      NoSlashes(s[1..]);
      assert forall c :: c in s <==> c == s[0] || c in s[1..];
    }
  }

  /** The text has a slash per segment, and those inside the segments. */
  lemma {:induction false} CountSegments(pointer: seq<string>)
    ensures Slashes(Render(pointer)) >= |pointer|
    ensures Slashes(Render(pointer)) == |pointer| <==> Plainly(pointer)
  {
    if pointer != [] {
      var rest := Render(pointer[1..]);
      CountSegments(pointer[1..]);
      NoSlashes(pointer[0]);
      SlashesJoin("/", pointer[0] + rest);
      SlashesJoin(pointer[0], rest);
      assert "/" + pointer[0] + rest == "/" + (pointer[0] + rest);
      assert Slashes("/") == 1 by { assert "/"[1..] == ""; }
      assert forall s :: s in pointer <==> s == pointer[0] || s in pointer[1..];
    }
  }

  /** Such a reader gets the pointer back exactly when no segment has a slash or something that looks like an escape. */
  lemma {:induction false} EscapedReaderExactly(pointer: seq<string>)
    ensures Read(Render(pointer)) == pointer <==> forall s | s in pointer :: SlashFree(s) && EscapeFree(s)
  {
    hide Render, Parse, Unescape, Slashes, EscapeFree, SlashFree;
    var text := Render(pointer);
    StartsWithSlash(pointer);
    ParsePlainly(text);
    RenderParse(text);
    CountSegments(pointer);
    CountSegments(Parse(text));
    if Plainly(pointer) {
      ParseRender(pointer);
      assert Parse(text) == pointer;
      forall i | 0 <= i < |pointer| ensures Unescape(pointer[i]) == pointer[i] <==> EscapeFree(pointer[i]) { UnescapeExactly(pointer[i]); }
      assert forall s | s in pointer :: SlashFree(s);
      if Read(text) == pointer {
        forall s | s in pointer ensures EscapeFree(s) {
          var i :| 0 <= i < |pointer| && pointer[i] == s;
        }
      } else {
        var i :| 0 <= i < |pointer| && Read(text)[i] != pointer[i];
        assert pointer[i] in pointer;
      }
    }
  }

  // ---- Documents whose property names have no slash ----

  ghost predicate PlainNames(s: Schema) {
    s.Node? ==>
      && (forall i | 0 <= i < |Props(s)| :: SlashFree(Props(s)[i].name) && PlainNames(Props(s)[i].schema))
      && (s.items.Some? ==> PlainNames(s.items.value))
  }

  lemma {:induction false} PlainlyDeeper(own: seq<string>, path: seq<string>)
    requires own <= path && Plainly(own) && Plainly(path[|own|..])
    ensures Plainly(path)
  {
    assert path == own + path[|own|..];
  }

  lemma {:induction false} NodePlainly(o: Schema, n: Schema, path: seq<string>, rule: Rule, subject: string)
    requires PlainNames(o) && NodeViolation(o, n, path, rule, subject)
    ensures Plainly(path)
    decreases o, 2
  {
    hide EntryViolation;
    if i :| 0 <= i < |Props(o)| && EntryViolation(Props(o)[i], n, path, rule, subject) {
      EntryPlainly(Props(o)[i], n, path, rule, subject);
    }
  }

  lemma {:induction false} EntryPlainly(p: Property, n: Schema, path: seq<string>, rule: Rule, subject: string)
    requires SlashFree(p.name) && PlainNames(p.schema) && EntryViolation(p, n, path, rule, subject)
    ensures Plainly(path)
    decreases p, 4
  {
    hide SideViolation;
    match Find(Props(n), p.name)
    case None =>
    case Some(sub) =>
      SidePlainly(p.schema, sub, path[2..], rule, subject);
      PlainlyDeeper(["properties", p.name], path);
  }

  lemma {:induction false} SidePlainly(o: Schema, n: Schema, path: seq<string>, rule: Rule, subject: string)
    requires PlainNames(o) && SideViolation(o, n, path, rule, subject)
    ensures Plainly(path)
    decreases o, 3
  {
    hide NodeViolation;
    if n.Node? && HasObjectShape(o) && NodeViolation(o, n, path, rule, subject) {
      NodePlainly(o, n, path, rule, subject);
    } else if BothItemNodes(o, n) && ["items"] <= path && NodeViolation(o.items.value, n.items.value, path[1..], rule, subject) {
      NodePlainly(o.items.value, n.items.value, path[1..], rule, subject);
      PlainlyDeeper(["items"], path);
    }
  }

  ghost predicate Prints(bs: seq<Break>, text: string, rule: Rule, subject: string) {
    exists b :: b in bs && Render(b.pointer) == text && b.rule == rule && b.subject == subject
  }

  /** With slash-free names, a line of the report says exactly what is violated and where. */
  lemma {:induction false} TextIsExact(link: Link, o: Schema, n: Schema, text: string, rule: Rule, subject: string)
    requires PlainNames(o)
    ensures Prints(NodeBreaks(link, o, n, []), text, rule, subject) <==>
      Render(Parse(text)) == text && NodeViolation(o, n, Parse(text), rule, subject)
  {
    hide NodeBreaks, NodeViolation;
    if Prints(NodeBreaks(link, o, n, []), text, rule, subject) {
      var b :| b in NodeBreaks(link, o, n, []) && Render(b.pointer) == text && b.rule == rule && b.subject == subject;
      ReportIsExact(link, o, n, b);
      NodePlainly(o, n, b.pointer, rule, subject);
      ParseRender(b.pointer);
    }
    if Render(Parse(text)) == text && NodeViolation(o, n, Parse(text), rule, subject) {
      var b := Break(link, rule, Parse(text), subject);
      ReportIsExact(link, o, n, b);
      assert b in NodeBreaks(link, o, n, []);
    }
  }

  /** And two of its lines are about the same place exactly when they print the same pointer. */
  lemma {:induction false} TextsTellApart(link: Link, o: Schema, n: Schema, x: Break, y: Break)
    requires PlainNames(o) && x in NodeBreaks(link, o, n, []) && y in NodeBreaks(link, o, n, [])
    ensures Render(x.pointer) == Render(y.pointer) <==> x.pointer == y.pointer
  {
    hide NodeBreaks, NodeViolation;
    ReportIsExact(link, o, n, x);
    ReportIsExact(link, o, n, y);
    NodePlainly(o, n, x.pointer, x.rule, x.subject);
    NodePlainly(o, n, y.pointer, y.rule, y.subject);
    ParseRender(x.pointer);
    ParseRender(y.pointer);
  }

  // ---- A slash in a name ----

  function Nested(a: string, b: string): seq<string> {
    ["properties", a, "properties", b]
  }

  function Slashed(a: string, b: string): seq<string> {
    ["properties", a + "/properties/" + b]
  }

  lemma {:induction false} RenderStep(s: string, rest: seq<string>)
    ensures Render([s] + rest) == "/" + s + Render(rest)
  {
    assert ([s] + rest)[1..] == rest;
  }

  lemma {:induction false} SameText(a: string, b: string)
    ensures Render(Nested(a, b)) == Render(Slashed(a, b))
  {
    hide Render;
    var slashed := a + "/properties/" + b;
    assert Nested(a, b) == ["properties"] + ([a] + (["properties"] + ([b] + [])));
    assert Slashed(a, b) == ["properties"] + ([slashed] + []);
    RenderStep("properties", [a] + (["properties"] + ([b] + [])));
    RenderStep(a, ["properties"] + ([b] + []));
    RenderStep("properties", [b] + []);
    RenderStep(b, []);
    RenderStep("properties", [slashed] + []);
    RenderStep(slashed, []);
    assert "/" + slashed == "/" + a + ("/properties" + ("/" + b));
  }

  /** A property `b` nested in `a`, and one whose name spells that path: removing both prints one pointer twice. */
  lemma {:induction false} SlashedNamesCollide(link: Link, a: string, b: string)
    ensures exists o, n, x, y ::
      && x in NodeBreaks(link, o, n, []) && y in NodeBreaks(link, o, n, [])
      && x.pointer != y.pointer && Render(x.pointer) == Render(y.pointer) && x.rule == y.rule
  {
    var slashed := a + "/properties/" + b;
    var inner := Node(OneType(TObject), None, [], Table([Property(b, Anything)]), None, None);
    var o := Anything.(props := Table([Property(a, inner), Property(slashed, Anything)]));
    var n := Anything.(props := Table([Property(a, Typed(OneType(TObject)))]));
    var x, y := Break(link, PropertyRemoved, Nested(a, b), ""), Break(link, PropertyRemoved, Slashed(a, b), "");
    assert Props(o)[0] == Property(a, inner) && Props(o)[1] == Property(slashed, Anything) && Props(n)[0].name == a;
    assert a != slashed by { assert |slashed| > |a|; }
    assert NodeViolation(o, n, x.pointer, x.rule, x.subject) by {
      assert x.pointer[2..] == ["properties", b];
      assert Props(inner)[0] == Property(b, Anything);
      assert EntryViolation(Props(inner)[0], Typed(OneType(TObject)), ["properties", b], PropertyRemoved, "");
      assert NodeViolation(inner, Typed(OneType(TObject)), ["properties", b], PropertyRemoved, "");
      assert EntryViolation(Props(o)[0], n, x.pointer, PropertyRemoved, "");
    }
    assert NodeViolation(o, n, y.pointer, y.rule, y.subject) by {
      assert EntryViolation(Props(o)[1], n, y.pointer, PropertyRemoved, "");
    }
    ReportIsExact(link, o, n, x);
    ReportIsExact(link, o, n, y);
    SameText(a, b);
  }
}
