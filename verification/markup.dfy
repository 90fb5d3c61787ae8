/** Message personalisation and the editor's preview: merge tags are
    substituted first, then three single left-to-right markup passes rewrite
    `*x*`, `_x_` and `~x~` (x non-empty and free of the delimiter) into HTML. */
module Markup {
  import opened Text

  const NameTag: string := "{{Name}}"
  const EmailTag: string := "{{Email}}"

  /** `personalizeMessage`: every `{{Name}}` becomes the name, then every
      `{{Email}}` in the result becomes the email. Names and emails are taken
      to hold no `$`, so the replacement is literal. */
  function Personalize(template: string, name: string, email: string): (r: string)
    ensures forall c :: c in r ==> c in template || c in name || c in email
  {
    ReplaceAll(ReplaceAll(template, NameTag, name), EmailTag, email)
  }

  /** Index of the first `c` in `s`. */
  function FirstIndex(s: string, c: char): (k: nat)
    requires c in s
    ensures k < |s| && s[k] == c && c !in s[..k]
  {
    if s[0] == c then 0
    else
      var k := FirstIndex(s[1..], c);
      assert s[..k + 1] == [s[0]] + s[1..][..k];
      k + 1
  }

  /** One pass of `s.replace(/d([^d]+)d/g, open + '$1' + close)`: at each
      position a delimiter followed by a non-empty delimiter-free run and a
      closing delimiter is rewritten; otherwise the character is copied. */
  function Emphasis(s: string, d: char, open: string, close: string): (r: string)
    ensures forall c :: c in r ==> c in s || c in open || c in close
    ensures |open| + |close| >= 2 ==> |r| >= |s|
    decreases |s|
  {
    if |s| == 0 then ""
    else if |s| >= 3 && s[0] == d && s[1] != d && d in s[2..] then
      var k := 2 + FirstIndex(s[2..], d);
      var rest := Emphasis(s[k + 1..], d, open, close);
      assert forall c :: c in s[1..k] ==> c in s;
      assert forall c :: c in s[k + 1..] ==> c in s;
      open + s[1..k] + close + rest
    else
      var rest := Emphasis(s[1..], d, open, close);
      assert forall c :: c in s[1..] ==> c in s;
      [s[0]] + rest
  }

  /** The bold pass: `*x*` becomes `<strong>x</strong>`; text without `*`
      is unchanged and no pass shortens its input. */
  function Bold(s: string): (r: string)
    ensures '*' !in s ==> r == s
    ensures |r| >= |s|
  {
    EmphasisPlainWhenFree(s, '*', "<strong>", "</strong>");
    Emphasis(s, '*', "<strong>", "</strong>")
  }

  /** The italic pass: `_x_` becomes `<em>x</em>`. */
  function Italic(s: string): (r: string)
    ensures '_' !in s ==> r == s
    ensures |r| >= |s|
  {
    EmphasisPlainWhenFree(s, '_', "<em>", "</em>");
    Emphasis(s, '_', "<em>", "</em>")
  }

  /** The strike-through pass: `~x~` becomes `<del>x</del>`. */
  function Strike(s: string): (r: string)
    ensures '~' !in s ==> r == s
    ensures |r| >= |s|
  {
    EmphasisPlainWhenFree(s, '~', "<del>", "</del>");
    Emphasis(s, '~', "<del>", "</del>")
  }

  lemma EmphasisPlainWhenFree(s: string, d: char, open: string, close: string)
    ensures d !in s ==> Emphasis(s, d, open, close) == s
  {
    if d !in s {
      EmphasisPlain(s, d, open, close);
    }
  }

  /** Personalise, then bold, italic and strike-through, in that order. A
      message without merge tags renders alike for every recipient. */
  function Render(message: string, name: string, email: string): (r: string)
    ensures !Contains(message, NameTag) && !Contains(message, EmailTag) ==>
      r == Strike(Italic(Bold(message)))
  {
    var p := Personalize(message, name, email);
    assert !Contains(message, NameTag) && !Contains(message, EmailTag) ==> p == message by {
      if !Contains(message, NameTag) && !Contains(message, EmailTag) {
        PersonalizeNoTags(message, name, email);
      }
    }
    Strike(Italic(Bold(p)))
  }

  /** No merge tag and none of the three markup delimiters. */
  predicate Plain(m: string) {
    !Contains(m, NameTag) && !Contains(m, EmailTag) && '*' !in m && '_' !in m && '~' !in m
  }

  /** `generatePreview`: render for the sample recipient. A message with no
      merge tag and none of `*`, `_`, `~` previews as itself. */
  function Preview(message: string): (r: string)
    ensures Plain(message) ==> r == message
  {
    Render(message, "John Doe", "john.doe@example.com")
  }

  /** Text without the delimiter passes through a markup pass unchanged. */
  lemma {:induction false} EmphasisPlain(s: string, d: char, open: string, close: string)
    requires d !in s
    ensures Emphasis(s, d, open, close) == s
  {
    if |s| > 0 {
      EmphasisPlain(s[1..], d, open, close);
    }
  }

  /** A delimiter-free prefix is copied and the pass continues after it. */
  lemma {:induction false} EmphasisPlainPrefix(a: string, b: string, d: char, open: string, close: string)
    requires d !in a
    ensures Emphasis(a + b, d, open, close) == a + Emphasis(b, d, open, close)
  {
    if |a| > 0 {
      assert (a + b)[0] == a[0];
      assert (a + b)[1..] == a[1..] + b;
      EmphasisPlainPrefix(a[1..], b, d, open, close);
    } else {
      assert a + b == b;
    }
  }

  /** `d x d` with `x` non-empty and delimiter-free is rewritten to
      `open x close`, and the pass resumes after the closing delimiter. */
  lemma EmphasisPair(x: string, rest: string, d: char, open: string, close: string)
    requires |x| > 0 && d !in x
    ensures Emphasis([d] + x + [d] + rest, d, open, close) == open + x + close + Emphasis(rest, d, open, close)
  {
    var s := [d] + x + [d] + rest;
    assert s[1] == x[0];
    assert s[2..] == x[1..] + ([d] + rest);
    assert forall c :: c in x[1..] ==> c in x;
    FirstAfterPlain(x[1..], [d] + rest, d);
    assert FirstIndex(s[2..], d) == |x| - 1;
    assert s[1..|x| + 1] == x;
    assert s[|x| + 2..] == rest;
  }

  lemma {:induction false} FirstAfterPlain(a: string, b: string, d: char)
    requires d !in a && |b| > 0 && b[0] == d
    ensures d in a + b && FirstIndex(a + b, d) == |a|
  {
    assert (a + b)[|a|] == d;
    if |a| > 0 {
      assert (a + b)[1..] == a[1..] + b;
      assert forall c :: c in a[1..] ==> c in a;
      FirstAfterPlain(a[1..], b, d);
    }
  }

  /** An empty pair such as `**` is not a pair: its first delimiter is
      copied and the pass resumes at the second. */
  lemma EmphasisEmptyPair(x: string, d: char, open: string, close: string)
    ensures Emphasis([d, d] + x, d, open, close) == [d] + Emphasis([d] + x, d, open, close)
  {
    var s := [d, d] + x;
    assert s[0] == d && s[1] == d;
    assert s[1..] == [d] + x;
  }

  /** A delimiter that is never closed is left as it is. */
  lemma EmphasisUnclosed(x: string, d: char, open: string, close: string)
    requires d !in x
    ensures Emphasis([d] + x, d, open, close) == [d] + x
  {
    var s := [d] + x;
    assert s[1..] == x;
    if |s| >= 3 {
      assert s[2..] == x[1..];
      assert forall c :: c in x[1..] ==> c in x;
    }
    EmphasisPlain(x, d, open, close);
  }

  /** A merge tag that does not occur is not substituted. */
  lemma PersonalizeNoTags(t: string, name: string, email: string)
    requires !Contains(t, NameTag) && !Contains(t, EmailTag)
    ensures Personalize(t, name, email) == t
  {
    ReplaceAllAbsent(t, NameTag, name);
    ReplaceAllAbsent(t, EmailTag, email);
  }

  /** The name is substituted before `{{Email}}` is looked for, so an
      `{{Email}}` inside the name is substituted too. */
  lemma NameBeforeEmail(email: string)
    ensures Personalize(NameTag, EmailTag, email) == email
  {
    ReplaceAllFront(NameTag, EmailTag, "");
    assert NameTag + "" == NameTag;
    assert ReplaceAll(NameTag, NameTag, EmailTag) == EmailTag + "";
    ReplaceAllFront(EmailTag, email, "");
    assert EmailTag + "" == EmailTag;
  }

  /** `render("Hi {{Name}}", Ann)` gives `"Hi Ann"`, whatever the email. */
  lemma GreetingExample(email: string)
    ensures Personalize("Hi {{Name}}", "Ann", email) == "Hi Ann"
  {
    assert "Hi {{Name}}" == "Hi " + NameTag + "";
    PersonalizeNameOnce("Hi ", "", "Ann", email);
    assert "Hi " + "Ann" + "" == "Hi Ann";
  }

  /** In text free of `{` other than the tag itself, a single `{{Name}}` is
      replaced by the name. */
  lemma ReplaceNameOnce(a: string, b: string, name: string)
    requires '{' !in a && '{' !in b
    ensures ReplaceAll(a + NameTag + b, NameTag, name) == a + name + b
  {
    assert a + NameTag + b == a + (NameTag + b);
    forall i | 0 <= i < |a| ensures !IsPrefix(NameTag, (a + (NameTag + b))[i..]) {
      assert (a + (NameTag + b))[i..][0] == a[i];
    }
    ReplaceAllPlainPrefix(a, NameTag + b, NameTag, name);
    ReplaceAllFront(NameTag, name, b);
    AbsentHead(b, NameTag);
    ReplaceAllAbsent(b, NameTag, name);
  }

  /** Personalising `a {{Name}} b`, all free of `{` but the tag, gives `a name b`. */
  lemma PersonalizeNameOnce(a: string, b: string, name: string, email: string)
    requires '{' !in a && '{' !in b && '{' !in name
    ensures Personalize(a + NameTag + b, name, email) == a + name + b
  {
    ReplaceNameOnce(a, b, name);
    var p := a + name + b;
    assert '{' !in p;
    AbsentHead(p, EmailTag);
    ReplaceAllAbsent(p, EmailTag, email);
  }

  /** A starred delimiter-free run renders bold and nothing else. */
  lemma MarkupStarred(x: string)
    requires |x| > 0 && '*' !in x && '_' !in x && '~' !in x
    ensures Strike(Italic(Bold("*" + x + "*"))) == "<strong>" + x + "</strong>"
  {
    EmphasisPair(x, "", '*', "<strong>", "</strong>");
    assert "*" + x + "*" == ['*'] + x + ['*'] + "";
    var b := "<strong>" + x + "</strong>";
    assert Emphasis("", '*', "<strong>", "</strong>") == "";
    assert b + "" == b;
    assert Bold("*" + x + "*") == b;
    assert '_' !in b && '~' !in b;
    EmphasisPlain(b, '_', "<em>", "</em>");
    EmphasisPlain(b, '~', "<del>", "</del>");
  }

  /** Markup runs on the substituted text: a bolded `{{Name}}` renders as the
      bolded name. */
  lemma RenderBoldName(name: string, email: string)
    requires |name| > 0 && '*' !in name && '_' !in name && '~' !in name && '{' !in name
    ensures Render("*{{Name}}*", name, email) == "<strong>" + name + "</strong>"
  {
    assert "*{{Name}}*" == "*" + NameTag + "*";
    PersonalizeNameOnce("*", "*", name, email);
    MarkupStarred(name);
  }
}
