/** Prompt templates: the store loaded from a directory listing, lookup, listing, and
    rendering with `str.format(**variables)` restricted to named fields. */
module PromptLoader {
  import opened Wrappers
  import opened Text

  // ---------------------------------------------------------------- template syntax

  /** A template is a sequence of literal characters and named fields. */
  datatype Piece = Literal(c: char) | Field(name: string)

  /** Characters that may appear in a field name: everything except the braces and the
      characters that would start an attribute access, an index, a conversion or a format
      specification. */
  predicate IsNameChar(c: char) {
    c != '{' && c != '}' && c != '.' && c != '[' && c != '!' && c != ':'
  }

  predicate IsDigit(c: char) {
    '0' <= c <= '9'
  }

  /** A keyword field: a non-empty name that is not all digits (an all-digit name is a
      positional index, and rendering passes no positional arguments). */
  predicate IsFieldName(name: string) {
    |name| > 0
    && (forall i :: 0 <= i < |name| ==> IsNameChar(name[i]))
    && exists i :: 0 <= i < |name| && !IsDigit(name[i])
  }

  function Prepend(p: Piece, rest: Option<seq<Piece>>): Option<seq<Piece>> {
    match rest
    case None => None
    case Some(ps) => Some([p] + ps)
  }

  /** Reads a template: `{{` and `}}` stand for single braces, `{name}` is a field, and any
      other brace makes the template unusable (`str.format` raises). */
  function Parse(t: string): Option<seq<Piece>>
    decreases |t|
  {
    if |t| == 0 then Some([])
    else if t[0] == '}' then
      if |t| >= 2 && t[1] == '}' then Prepend(Literal('}'), Parse(t[2..])) else None
    else if t[0] == '{' then
      if |t| >= 2 && t[1] == '{' then Prepend(Literal('{'), Parse(t[2..]))
      else
        var n := RunLength(t[1..], IsNameChar);
        if 1 + n < |t| && t[1 + n] == '}' && IsFieldName(t[1..1 + n])
        then Prepend(Field(t[1..1 + n]), Parse(t[n + 2..]))
        else None
    else Prepend(Literal(t[0]), Parse(t[1..]))
  }

  /** The pieces a template can be made of: every field carries a proper name. */
  predicate WellFormed(ps: seq<Piece>) {
    forall k :: 0 <= k < |ps| && ps[k].Field? ==> IsFieldName(ps[k].name)
  }

  function PieceText(p: Piece): string {
    match p
    case Literal(c) => if c == '{' then "{{" else if c == '}' then "}}" else [c]
    case Field(n) => "{" + n + "}"
  }

  /** Writes pieces back as template text, doubling literal braces. */
  function Unparse(ps: seq<Piece>): string {
    if |ps| == 0 then [] else PieceText(ps[0]) + Unparse(ps[1..])
  }

  /** Reading the text of one well-formed piece yields that piece in front of whatever the
      rest reads as. */
  lemma ParsePiece(p: Piece, rest: string)
    requires p.Field? ==> IsFieldName(p.name)
    ensures Parse(PieceText(p) + rest) == Prepend(p, Parse(rest))
  {
    var t := PieceText(p) + rest;
    match p
    case Literal(c) =>
      if c == '{' || c == '}' {
        assert t[2..] == rest;
      } else {
        assert t[1..] == rest;
      }
    case Field(n) =>
      assert t == "{" + n + "}" + rest;
      assert t[1..] == n + "}" + rest;
      RunLengthUnique(t[1..], IsNameChar, |n|);
      assert t[1..1 + |n|] == n;
      assert t[|n| + 2..] == rest;
  }

  /** Every well-formed piece sequence is read back from its text. */
  lemma {:induction false} UnparseParse(ps: seq<Piece>)
    requires WellFormed(ps)
    ensures Parse(Unparse(ps)) == Some(ps)
  {
    if |ps| > 0 {
      var t := Unparse(ps[1..]);
      WellFormedSplit(ps);
      UnparseParse(ps[1..]);
      ParsePiece(ps[0], t);
      assert Unparse(ps) == PieceText(ps[0]) + t;
      assert [ps[0]] + ps[1..] == ps;
    }
  }

  /** The head and the tail of well-formed pieces are well formed. */
  lemma WellFormedSplit(ps: seq<Piece>)
    requires WellFormed(ps) && |ps| > 0
    ensures ps[0].Field? ==> IsFieldName(ps[0].name)
    ensures WellFormed(ps[1..])
  {
    forall k | 0 <= k < |ps[1..]| && ps[1..][k].Field?
      ensures IsFieldName(ps[1..][k].name)
    {
      assert ps[1..][k] == ps[k + 1];
    }
  }

  lemma PrependWellFormed(p: Piece, ps: seq<Piece>)
    requires p.Field? ==> IsFieldName(p.name)
    requires WellFormed(ps)
    ensures WellFormed([p] + ps)
  {
    assert forall k :: 0 < k < |[p] + ps| ==> ([p] + ps)[k] == ps[k - 1];
  }

  lemma UnparsePrepend(p: Piece, ps: seq<Piece>)
    ensures Unparse([p] + ps) == PieceText(p) + Unparse(ps)
  {
    assert ([p] + ps)[1..] == ps;
  }

  /** The first step of reading a non-empty template that reads: it consumes a prefix of
      length `k`, which is the text of the piece `p`. */
  lemma ParseStep(t: string) returns (p: Piece, k: nat)
    requires |t| > 0 && Parse(t).Some?
    ensures 0 < k <= |t| && PieceText(p) == t[..k]
    ensures p.Field? ==> IsFieldName(p.name)
    ensures Parse(t) == Prepend(p, Parse(t[k..]))
  {
    if t[0] == '}' {
      p, k := Literal('}'), 2;
    } else if t[0] == '{' && |t| >= 2 && t[1] == '{' {
      p, k := Literal('{'), 2;
    } else if t[0] == '{' {
      var n := RunLength(t[1..], IsNameChar);
      p, k := Field(t[1..1 + n]), n + 2;
      assert t[..k] == "{" + t[1..1 + n] + "}";
    } else {
      p, k := Literal(t[0]), 1;
    }
  }

  /** Every template that reads successfully is well-formed and is written back verbatim. */
  lemma {:induction false} ParseUnparse(t: string)
    requires Parse(t).Some?
    ensures WellFormed(Parse(t).value)
    ensures Unparse(Parse(t).value) == t
    decreases |t|
  {
    if |t| > 0 {
      var p, k := ParseStep(t);
      var rest := Parse(t[k..]).value;
      ParseUnparse(t[k..]);
      PrependWellFormed(p, rest);
      UnparsePrepend(p, rest);
      assert t == t[..k] + t[k..];
    }
  }

  // ---------------------------------------------------------------- rendering

  /** The names of the fields a template uses. */
  function FieldNames(ps: seq<Piece>): set<string> {
    if |ps| == 0 then {}
    else (if ps[0].Field? then {ps[0].name} else {}) + FieldNames(ps[1..])
  }

  function Concat(a: string, rest: Option<string>): Option<string> {
    match rest
    case None => None
    case Some(s) => Some(a + s)
  }

  /** Substitutes every field by its value; a field without a value fails the whole
      rendering, as the `KeyError` does. */
  function Fill(ps: seq<Piece>, vars: map<string, string>): (r: Option<string>)
    ensures r.Some? <==> FieldNames(ps) <= vars.Keys
  {
    if |ps| == 0 then Some([])
    else
      match ps[0]
      case Literal(c) => Concat([c], Fill(ps[1..], vars))
      case Field(n) => if n in vars then Concat(vars[n], Fill(ps[1..], vars)) else None
  }

  /** Filling distributes over concatenation of templates, so the output is the pieces'
      outputs side by side: each literal character stands for itself and each field for
      its value. */
  lemma {:induction false} FillAppend(ps: seq<Piece>, qs: seq<Piece>, vars: map<string, string>)
    requires FieldNames(ps) <= vars.Keys && FieldNames(qs) <= vars.Keys
    ensures Fill(ps + qs, vars) == Some(Fill(ps, vars).value + Fill(qs, vars).value)
  {
    if |ps| == 0 {
      assert ps + qs == qs;
      assert Fill(ps, vars) == Some([]);
      assert [] + Fill(qs, vars).value == Fill(qs, vars).value;
    } else {
      var p, t := ps[0], ps[1..];
      assert ps == [p] + t && ps + qs == [p] + (t + qs);
      FillAppend(t, qs, vars);
      FillAppendCons(p, t, qs, vars);
    }
  }

  /** The step of `FillAppend`: a piece put in front of both sides. */
  lemma FillAppendCons(p: Piece, t: seq<Piece>, qs: seq<Piece>, vars: map<string, string>)
    requires p.Field? ==> p.name in vars
    requires FieldNames(t) <= vars.Keys && FieldNames(qs) <= vars.Keys
    requires Fill(t + qs, vars) == Some(Fill(t, vars).value + Fill(qs, vars).value)
    ensures Fill([p] + (t + qs), vars) == Some(Fill([p] + t, vars).value + Fill(qs, vars).value)
  {
    FillCons(p, t, vars);
    FillCons(p, t + qs, vars);
    Assoc(PieceValue(p, vars), Fill(t, vars).value, Fill(qs, vars).value);
  }

  lemma Assoc(a: string, b: string, c: string)
    ensures a + (b + c) == (a + b) + c
  {
  }

  /** What one piece contributes to the output. */
  function PieceValue(p: Piece, vars: map<string, string>): string
    requires p.Field? ==> p.name in vars
  {
    match p
    case Literal(c) => [c]
    case Field(n) => vars[n]
  }

  /** Filling a piece in front of others puts its value in front of theirs. */
  lemma FillCons(p: Piece, rest: seq<Piece>, vars: map<string, string>)
    requires p.Field? ==> p.name in vars
    ensures Fill([p] + rest, vars) == Concat(PieceValue(p, vars), Fill(rest, vars))
  {
    assert ([p] + rest)[0] == p && ([p] + rest)[1..] == rest;
  }

  lemma {:induction false} FieldNamesAppend(ps: seq<Piece>, qs: seq<Piece>)
    ensures FieldNames(ps + qs) == FieldNames(ps) + FieldNames(qs)
  {
    if |ps| == 0 {
      assert ps + qs == qs;
    } else {
      assert (ps + qs)[0] == ps[0];
      assert (ps + qs)[1..] == ps[1..] + qs;
      FieldNamesAppend(ps[1..], qs);
    }
  }

  lemma FillOnePiece(p: Piece, vars: map<string, string>)
    ensures p.Literal? ==> Fill([p], vars) == Some([p.c])
    ensures p.Field? && p.name in vars ==> Fill([p], vars) == Some(vars[p.name])
    ensures p.Field? && p.name !in vars ==> Fill([p], vars) == None
  {
    assert [p][1..] == [];
    assert Fill([], vars) == Some([]);
    match p
    case Literal(c) =>
      assert [c] + [] == [c];
    case Field(n) =>
      assert vars.Keys >= {} ==> n in vars ==> vars[n] + [] == vars[n];
  }

  /** Variables the template does not use make no difference. */
  lemma {:induction false} FillIgnoresUnused(ps: seq<Piece>, v1: map<string, string>, v2: map<string, string>)
    requires forall n :: n in FieldNames(ps) ==> (n in v1 <==> n in v2)
    requires forall n :: n in FieldNames(ps) && n in v1 ==> v1[n] == v2[n]
    ensures Fill(ps, v1) == Fill(ps, v2)
  {
    if |ps| > 0 {
      FillIgnoresUnused(ps[1..], v1, v2);
    }
  }

  /** `template.format(**variables)`: succeeds exactly when the template reads and every
      field it names has a value. */
  function Format(t: string, vars: map<string, string>): (r: Option<string>)
    ensures r.Some? <==> Parse(t).Some? && FieldNames(Parse(t).value) <= vars.Keys
  {
    match Parse(t)
    case None => None
    case Some(ps) => Fill(ps, vars)
  }

  /** Formatting the text of well-formed pieces fills those pieces. */
  lemma FormatUnparse(ps: seq<Piece>, vars: map<string, string>)
    requires WellFormed(ps)
    ensures Format(Unparse(ps), vars) == Fill(ps, vars)
  {
    UnparseParse(ps);
  }

  predicate NoBraces(s: string) {
    forall i :: 0 <= i < |s| ==> s[i] != '{' && s[i] != '}'
  }

  /** A template without braces renders to itself whatever the variables. */
  lemma {:induction false} FormatVerbatim(t: string, vars: map<string, string>)
    requires NoBraces(t)
    ensures Format(t, vars) == Some(t)
    decreases |t|
  {
    if |t| > 0 {
      assert NoBraces(t[1..]) by {
        assert forall i :: 0 <= i < |t[1..]| ==> t[1..][i] == t[i + 1];
      }
      FormatVerbatim(t[1..], vars);
      assert [t[0]] + t[1..] == t;
    }
  }

  /** The literal pieces spelling out `s`. */
  function Lits(s: string): (ps: seq<Piece>)
    ensures |ps| == |s|
    ensures forall i :: 0 <= i < |s| ==> ps[i] == Literal(s[i])
  {
    seq(|s|, i requires 0 <= i < |s| => Literal(s[i]))
  }

  lemma {:induction false} UnparseLits(s: string)
    requires NoBraces(s)
    ensures WellFormed(Lits(s))
    ensures Unparse(Lits(s)) == s
    ensures FieldNames(Lits(s)) == {}
    decreases |s|
  {
    if |s| > 0 {
      assert Lits(s)[1..] == Lits(s[1..]);
      assert NoBraces(s[1..]) by {
        assert forall i :: 0 <= i < |s[1..]| ==> s[1..][i] == s[i + 1];
      }
      UnparseLits(s[1..]);
      assert [s[0]] + s[1..] == s;
    }
  }

  /** Literal characters fill as themselves, braces included. */
  lemma {:induction false} FillLits(s: string, vars: map<string, string>)
    ensures Fill(Lits(s), vars) == Some(s)
    decreases |s|
  {
    if |s| > 0 {
      assert Lits(s)[1..] == Lits(s[1..]);
      FillLits(s[1..], vars);
      assert [s[0]] + s[1..] == s;
    }
  }

  lemma {:induction false} UnparseAppend(ps: seq<Piece>, qs: seq<Piece>)
    ensures Unparse(ps + qs) == Unparse(ps) + Unparse(qs)
  {
    if |ps| == 0 {
      assert ps + qs == qs;
    } else {
      assert (ps + qs)[1..] == ps[1..] + qs;
      assert (ps + qs)[0] == ps[0];
      UnparseAppend(ps[1..], qs);
    }
  }

  lemma OneFieldText(pre: string, name: string, post: string)
    requires NoBraces(pre) && NoBraces(post)
    requires IsFieldName(name)
    ensures WellFormed(Lits(pre) + [Field(name)] + Lits(post))
    ensures Unparse(Lits(pre) + [Field(name)] + Lits(post)) == pre + "{" + name + "}" + post
  {
    OneFieldWellFormed(pre, name, post);
    OneFieldUnparse(pre, name, post);
  }

  lemma OneFieldWellFormed(pre: string, name: string, post: string)
    requires IsFieldName(name)
    ensures WellFormed(Lits(pre) + [Field(name)] + Lits(post))
  {
    var ps := Lits(pre) + [Field(name)] + Lits(post);
    forall k | 0 <= k < |ps|
      ensures ps[k] == if k < |pre| then Literal(pre[k])
        else if k == |pre| then Field(name) else Literal(post[k - |pre| - 1])
    {
    }
  }

  lemma OneFieldUnparse(pre: string, name: string, post: string)
    requires NoBraces(pre) && NoBraces(post)
    ensures Unparse(Lits(pre) + [Field(name)] + Lits(post)) == pre + "{" + name + "}" + post
  {
    var a, f, b := Lits(pre), [Field(name)], Lits(post);
    UnparseLits(pre);
    UnparseLits(post);
    UnparseField(name);
    UnparseAppend(a + f, b);
    UnparseAppend(a, f);
    BracedAssoc(pre, name, post);
  }

  lemma BracedAssoc(pre: string, name: string, post: string)
    ensures pre + ("{" + name + "}") + post == pre + "{" + name + "}" + post
  {
  }

  lemma UnparseField(name: string)
    ensures Unparse([Field(name)]) == "{" + name + "}"
  {
    var f := [Field(name)];
    assert f[1..] == [];
    assert Unparse(f) == PieceText(f[0]) + Unparse([]);
  }

  lemma OneFieldFill(pre: string, name: string, post: string, vars: map<string, string>)
    requires name in vars
    ensures Fill(Lits(pre) + [Field(name)] + Lits(post), vars) == Some(pre + vars[name] + post)
  {
    FillOnePiece(Field(name), vars);
    FillLits(pre, vars);
    FillLits(post, vars);
    assert FieldNames([Field(name)]) == {name} by {
      assert [Field(name)][1..] == [];
    }
    FillAppend(Lits(pre), [Field(name)], vars);
    FieldNamesAppend(Lits(pre), [Field(name)]);
    FillAppend(Lits(pre) + [Field(name)], Lits(post), vars);
  }

  /** A template with a single field between brace-free text renders as that text with the
      field replaced by its value. */
  lemma FormatOneField(pre: string, name: string, post: string, vars: map<string, string>)
    requires NoBraces(pre) && NoBraces(post)
    requires IsFieldName(name) && name in vars
    ensures Format(pre + "{" + name + "}" + post, vars) == Some(pre + vars[name] + post)
  {
    OneFieldText(pre, name, post);
    FormatUnparse(Lits(pre) + [Field(name)] + Lits(post), vars);
    OneFieldFill(pre, name, post, vars);
  }

  lemma FormatGreeting()
    ensures Format("Hi {name}!", map["name" := "Ada"]) == Some("Hi Ada!")
  {
    assert IsFieldName("name") by {
      assert !IsDigit("name"[0]);
    }
    FormatOneField("Hi ", "name", "!", map["name" := "Ada"]);
    assert "Hi " + "{" + "name" + "}" + "!" == "Hi {name}!";
    assert "Hi " + "Ada" + "!" == "Hi Ada!";
  }

  lemma FormatEscapedBraces()
    ensures Format("{{x}}", map[]) == Some("{x}")
  {
    var ps := Lits("{x}");
    assert Unparse(ps) == "{{x}}" by {
      assert ps[2..] == [Literal('}')];
      assert Unparse(ps[2..]) == "}}";
      assert Unparse(ps[1..]) == "x}}";
    }
    FormatUnparse(ps, map[]);
    FillLits("{x}", map[]);
  }

  lemma FormatMissingVariable()
    ensures Format("{topic}", map[]) == None
  {
    var ps := [Field("topic")];
    assert IsFieldName("topic") by {
      assert !IsDigit("topic"[0]);
    }
    assert Unparse(ps) == "{topic}";
    UnparseParse(ps);
  }

  // ---------------------------------------------------------------- the template store

  /** The loaded templates: a dictionary from name to text, whose keys keep the order of
      first insertion. */
  datatype TemplateStore = TemplateStore(names: seq<string>, texts: map<string, string>)

  const Empty := TemplateStore([], map[])

  predicate Valid(ts: TemplateStore) {
    Distinct(ts.names)
    && (forall n :: n in ts.names ==> n in ts.texts)
    && (forall n :: n in ts.texts ==> n in ts.names)
  }

  /** Dictionary assignment: a new name goes to the end of the key order, an existing one
      keeps its place and takes the new text. */
  function Put(ts: TemplateStore, name: string, text: string): (r: TemplateStore)
    requires Valid(ts)
    ensures Valid(r)
    ensures forall n :: GetTemplate(r, n) == (if n == name then Some(text) else GetTemplate(ts, n))
    ensures ts.names <= r.names
    ensures |r.names| == |ts.names| + (if name in ts.texts then 0 else 1)
  {
    TemplateStore(if name in ts.texts then ts.names else ts.names + [name], ts.texts[name := text])
  }

  /** An entry of the templates directory: its file name, and its text or `None` when the
      file cannot be read. */
  datatype DirEntry = DirEntry(filename: string, contents: Option<string>)

  predicate EndsWith(s: string, suffix: string) {
    |suffix| <= |s| && s[|s| - |suffix|..] == suffix
  }

  const Suffix := ".txt"

  /** `filename.replace('.txt', '')`: every occurrence is removed, scanning left to right. */
  function TemplateName(filename: string): string
    decreases |filename|
  {
    if |filename| == 0 then []
    else if Suffix <= filename then TemplateName(filename[|Suffix|..])
    else [filename[0]] + TemplateName(filename[1..])
  }

  /** Removing the suffix never lengthens a name, and a name without the suffix is kept. */
  lemma {:induction false} TemplateNameShortens(filename: string)
    ensures |TemplateName(filename)| <= |filename|
    ensures !Contains(filename, Suffix) ==> TemplateName(filename) == filename
    decreases |filename|
  {
    if |filename| > 0 {
      if Suffix <= filename {
        TemplateNameShortens(filename[|Suffix|..]);
      } else {
        TemplateNameShortens(filename[1..]);
        assert [filename[0]] + filename[1..] == filename;
      }
    }
  }

  /** A file name that mentions the suffix only at its end is named by its stem. */
  lemma {:induction false} TemplateNameOfStem(stem: string)
    requires !Contains(stem, Suffix)
    ensures TemplateName(stem + Suffix) == stem
    decreases |stem|
  {
    var f := stem + Suffix;
    if |stem| == 0 {
      assert f[4..] == [];
    } else {
      assert !(Suffix <= f) by {
        if |stem| >= 4 {
          assert f[..4] == stem[..4];
        } else {
          assert f[|stem|] == '.';
        }
      }
      assert f[1..] == stem[1..] + Suffix;
      TemplateNameOfStem(stem[1..]);
      assert [stem[0]] + stem[1..] == stem;
    }
  }

  /** A doubled suffix is removed twice. */
  lemma TemplateNameDoubleSuffix()
    ensures TemplateName("a.txt.txt") == "a"
  {
    var f := "a.txt.txt";
    assert !(Suffix <= f) by {
      assert f[0] == 'a';
    }
    assert f[1..] == Suffix + Suffix;
    assert TemplateName(Suffix + Suffix) == TemplateName(Suffix) by {
      assert (Suffix + Suffix)[4..] == Suffix;
    }
    TemplateNameOfStem([]);
    assert [] + Suffix == Suffix;
  }

  /** Whether an entry loads as the template `name`. */
  predicate Loads(e: DirEntry, name: string) {
    EndsWith(e.filename, Suffix) && e.contents.Some? && TemplateName(e.filename) == name
  }

  /** One step of the directory scan. */
  function LoadEntry(ts: TemplateStore, e: DirEntry): (r: TemplateStore)
    requires Valid(ts)
    ensures Valid(r)
  {
    if EndsWith(e.filename, Suffix) && e.contents.Some?
    then Put(ts, TemplateName(e.filename), e.contents.value)
    else ts
  }

  /** The scan over the entries in listing order. */
  function LoadAll(es: seq<DirEntry>): (ts: TemplateStore)
    ensures Valid(ts)
  {
    if |es| == 0 then Empty else LoadEntry(LoadAll(es[..|es| - 1]), es[|es| - 1])
  }

  /** `load_templates` on a listing, `None` when the directory does not exist. */
  function LoadTemplates(listing: Option<seq<DirEntry>>): (ts: TemplateStore)
    ensures Valid(ts)
    ensures listing.None? ==> ts.texts == map[]
  {
    match listing
    case None => Empty
    case Some(es) => LoadAll(es)
  }

  /** `get_template`: the stored text, or `None` for an unknown name. */
  function GetTemplate(ts: TemplateStore, name: string): (r: Option<string>) {
    if name in ts.texts then Some(ts.texts[name]) else None
  }

  /** In a consistent store the names found are exactly the names listed. */
  lemma GetTemplateListed(ts: TemplateStore, name: string)
    requires Valid(ts)
    ensures GetTemplate(ts, name).Some? <==> name in ts.names
  {
  }

  /** A name is known exactly when some readable `.txt` entry maps to it, and its text is
      that of the last such entry in the listing. */
  lemma {:induction false} LoadAllContents(es: seq<DirEntry>, name: string)
    ensures GetTemplate(LoadAll(es), name).Some? <==> exists i :: 0 <= i < |es| && Loads(es[i], name)
    ensures GetTemplate(LoadAll(es), name).Some? ==>
      exists i :: 0 <= i < |es| && Loads(es[i], name)
        && GetTemplate(LoadAll(es), name).value == es[i].contents.value
        && forall j :: i < j < |es| ==> !Loads(es[j], name)
  {
    if |es| > 0 {
      var init := es[..|es| - 1];
      var last := es[|es| - 1];
      LoadAllContents(init, name);
      assert forall i :: 0 <= i < |init| ==> init[i] == es[i];
      if Loads(last, name) {
        assert GetTemplate(LoadAll(es), name) == Some(last.contents.value);
      } else {
        assert GetTemplate(LoadAll(es), name) == GetTemplate(LoadAll(init), name);
        if GetTemplate(LoadAll(es), name).Some? {
          var i :| 0 <= i < |init| && Loads(init[i], name)
            && GetTemplate(LoadAll(init), name).value == init[i].contents.value
            && forall j :: i < j < |init| ==> !Loads(init[j], name);
          assert forall j :: i < j < |es| ==> !Loads(es[j], name);
        }
      }
    }
  }

  /** `list_templates`: the loaded names, each once, in order of first loading. */
  function ListTemplates(ts: TemplateStore): (r: seq<string>)
    requires Valid(ts)
    ensures Distinct(r)
    ensures forall n :: n in r <==> GetTemplate(ts, n).Some?
  {
    ts.names
  }

  /** `render_template`: fails for an unknown name, for an empty template and when the text
      cannot be formatted with the variables. */
  function RenderTemplate(ts: TemplateStore, name: string, vars: map<string, string>): (r: Option<string>)
    ensures r.Some? <==>
      name in ts.texts && ts.texts[name] != ""
      && Parse(ts.texts[name]).Some? && FieldNames(Parse(ts.texts[name]).value) <= vars.Keys
    ensures r.Some? ==> r == Format(ts.texts[name], vars)
  {
    match GetTemplate(ts, name)
    case None => None
    case Some(t) => if t == "" then None else Format(t, vars)
  }

  /** A stored template without braces renders to its own text. */
  lemma RenderVerbatim(ts: TemplateStore, name: string, vars: map<string, string>)
    requires name in ts.texts && ts.texts[name] != ""
    requires NoBraces(ts.texts[name])
    ensures RenderTemplate(ts, name, vars) == Some(ts.texts[name])
  {
    FormatVerbatim(ts.texts[name], vars);
  }
}
