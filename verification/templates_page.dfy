/** The templates page: search and category filtering, the plain-text
    excerpt of a template's HTML content, form submission and the category
    colour. */
module TemplatesPage {
  import opened Base
  import opened Store
  import opened Text
  import opened TemplateService

  /** The search rule: a template matches a non-empty term when its
      lower-cased name or description contains the lower-cased term. */
  predicate MatchesSearch(t: Template, term: string) {
    term == "" || Contains(Lower(t.name), Lower(term)) || Contains(Lower(t.description), Lower(term))
  }

  /** The category rule: `'all'` admits every category. */
  predicate MatchesCategory(t: Template, category: string) {
    category == "all" || t.category == category
  }

  /** `filterTemplates`: the search filter, then the category filter. */
  function FilterTemplates(templates: seq<Template>, term: string, category: string): (r: seq<Template>)
    ensures Subsequence(r, templates)
    ensures forall i :: 0 <= i < |r| ==> r[i] in templates && MatchesSearch(r[i], term) && MatchesCategory(r[i], category)
    ensures forall i :: 0 <= i < |templates| && MatchesSearch(templates[i], term) && MatchesCategory(templates[i], category) ==> templates[i] in r
  {
    var bySearch := (t: Template) => MatchesSearch(t, term);
    var byCategory := (t: Template) => t.category == category;
    FilterMembers(templates, bySearch);
    var searched := if term != "" then Filter(templates, bySearch) else templates;
    FilterMembers(searched, byCategory);
    var r := if category != "all" then Filter(searched, byCategory) else searched;
    SubsequenceRefl(templates);
    SubsequenceRefl(searched);
    SubsequenceTrans(r, searched, templates);
    r
  }

  /** With no search term and the `'all'` category every template is shown,
      in order. */
  lemma ShowAll(templates: seq<Template>)
    ensures FilterTemplates(templates, "", "all") == templates
  {
  }

  /** Narrowing to a category never shows a template the unfiltered search
      would hide. */
  lemma CategoryNarrows(templates: seq<Template>, term: string, category: string)
    ensures Subsequence(FilterTemplates(templates, term, category), FilterTemplates(templates, term, "all"))
  {
    if term != "" {
      assert FilterTemplates(templates, term, "all") == Filter(templates, (t: Template) => MatchesSearch(t, term));
    }
    SubsequenceRefl(FilterTemplates(templates, term, "all"));
  }

  /** No `<` of `s` has a `>` somewhere after it. */
  predicate NoTagSpan(s: string) {
    forall i, j :: 0 <= i < j < |s| && s[i] == '<' ==> s[j] != '>'
  }

  /** `s.replace(/<[^>]*>/g, '')`: each `<` that has a `>` after it is removed
      together with everything up to and including the first such `>`. */
  function StripTags(s: string): (r: string)
    ensures |r| <= |s|
    ensures forall i :: 0 <= i < |r| ==> r[i] in s
    ensures NoTagSpan(r)
    decreases |s|
  {
    if |s| == 0 then ""
    else if s[0] == '<' && '>' in s[1..] then
      var k := FirstIndexOf(s[1..], '>');
      var rest := StripTags(s[k + 2..]);
      assert forall i :: 0 <= i < |rest| ==> rest[i] in s by {
        forall i | 0 <= i < |rest| ensures rest[i] in s {
          var j :| 0 <= j < |s[k + 2..]| && s[k + 2..][j] == rest[i];
          assert s[k + 2 + j] == rest[i];
        }
      }
      rest
    else
      var rest := StripTags(s[1..]);
      var r := [s[0]] + rest;
      assert forall i :: 0 <= i < |rest| ==> rest[i] in s[1..];
      assert forall i :: 1 <= i < |r| ==> r[i] == rest[i - 1];
      r
  }

  /** Index of the first `c` in `s`. */
  function FirstIndexOf(s: string, c: char): (k: nat)
    requires c in s
    ensures k < |s| && s[k] == c
    ensures forall j :: 0 <= j < k ==> s[j] != c
  {
    if s[0] == c then 0 else 1 + FirstIndexOf(s[1..], c)
  }

  /** Stripping leaves text unchanged exactly when no `<` in it has a `>`
      after it; in particular text without `>` keeps every unclosed `<`. */
  lemma {:induction false} StripTagsFixed(s: string)
    ensures StripTags(s) == s <==> NoTagSpan(s)
  {
    if NoTagSpan(s) && |s| > 0 {
      if s[0] == '<' {
        assert '>' !in s[1..] by {
          forall j | 0 <= j < |s[1..]| ensures s[1..][j] != '>' {
            assert s[j + 1] != '>';
          }
        }
      }
      assert NoTagSpan(s[1..]) by {
        forall i, j | 0 <= i < j < |s[1..]| && s[1..][i] == '<' ensures s[1..][j] != '>' {
          assert s[i + 1] == '<';
        }
      }
      StripTagsFixed(s[1..]);
      assert s == [s[0]] + s[1..];
    }
  }

  /** A prefix without `<` is copied and the rest stripped after it. */
  lemma {:induction false} StripTagsPlainPrefix(a: string, b: string)
    requires '<' !in a
    ensures StripTags(a + b) == a + StripTags(b)
  {
    if |a| > 0 {
      assert (a + b)[0] == a[0];
      assert (a + b)[1..] == a[1..] + b;
      StripTagsPlainPrefix(a[1..], b);
      assert a == [a[0]] + a[1..];
    } else {
      assert a + b == b;
    }
  }

  /** A tag in front is dropped and the rest stripped. */
  lemma StripTagsFront(tag: string, rest: string)
    requires '>' !in tag
    ensures StripTags("<" + tag + ">" + rest) == StripTags(rest)
  {
    var s := "<" + tag + ">" + rest;
    assert s[1..] == tag + ">" + rest;
    assert s[1..][|tag|] == '>';
    assert FirstIndexOf(s[1..], '>') == |tag|;
    assert s[|tag| + 2..] == rest;
  }

  /** `stripHtml`: the tag-stripped text cut to its first 100 characters. */
  function StripHtml(html: string): (r: string)
    ensures |r| <= 100 && NoTagSpan(r)
    ensures IsPrefix(r, StripTags(html))
    ensures |r| == if |StripTags(html)| < 100 then |StripTags(html)| else 100
  {
    var t := StripTags(html);
    if |t| <= 100 then t else t[..100]
  }

  /** How the template modal was opened. */
  datatype ModalMode = CreateMode | EditMode | ViewMode

  /** `handleSubmit`: blank required fields are refused; otherwise the form is
      stored as typed (untrimmed), as a new template or over the one being
      edited. Submitting from the view mode stores nothing. */
  function Submit(s: seq<Template>, mode: ModalMode, editing: Option<Template>, form: TemplateForm, now: Time)
    : (r: Result<seq<Template>>)
    requires mode == EditMode ==> editing.Some?
    ensures r == Err(MissingRequiredFields) <==> AllWhitespace(form.name) || AllWhitespace(form.content)
    ensures r.Ok? && mode == CreateMode ==> |r.value| == |s| + 1 && r.value[..|s|] == s
    ensures r.Ok? && mode == CreateMode ==> TemplateForm(r.value[|s|].name, r.value[|s|].description, r.value[|s|].content, r.value[|s|].category) == form
    ensures r.Ok? && mode == EditMode ==> exists k ::
      && 0 <= k < |s| && s[k].id == editing.value.id
      && (forall j :: 0 <= j < k ==> s[j].id != editing.value.id)
      && r.value == s[k := s[k].(name := form.name, description := form.description, content := form.content,
                                 category := form.category, updatedAt := now)]
    ensures mode == EditMode && !AllWhitespace(form.name) && !AllWhitespace(form.content) ==> (r.Err? <==> !HasKey(s, TemplateService.IdOf, editing.value.id))
    ensures r.Ok? && mode == ViewMode ==> r.value == s
  {
    if Trim(form.name) == "" || Trim(form.content) == "" then Err(MissingRequiredFields)
    else match mode
      case CreateMode => Ok(TemplateService.Create(s, form, now).0)
      case EditMode =>
        (match TemplateService.Update(s, editing.value.id, form, now)
         case Err(e) => Err(e)
         case Ok((s', _)) => Ok(s'))
      case ViewMode => Ok(s)
  }

  /** A template created from the modal is listed under its own category
      when no search term is typed. */
  lemma CreatedIsListed(s: seq<Template>, form: TemplateForm, now: Time)
    requires Submit(s, CreateMode, None, form, now).Ok?
    ensures var s' := Submit(s, CreateMode, None, form, now).value;
      s'[|s|] in FilterTemplates(s', "", form.category)
  {
  }

  const GeneralColor: string := "bg-gray-100 text-gray-800"

  /** The categories with a colour of their own. */
  const Categories: seq<string> := ["general", "marketing", "event", "reminder", "welcome", "follow-up"]

  /** `getCategoryColor`: a category without a colour of its own gets the
      general colour. */
  function CategoryColor(category: string): (c: string)
    ensures c == GeneralColor <==> category == "general" || category !in Categories
  {
    if category == "marketing" then "bg-blue-100 text-blue-800"
    else if category == "event" then "bg-green-100 text-green-800"
    else if category == "reminder" then "bg-yellow-100 text-yellow-800"
    else if category == "welcome" then "bg-purple-100 text-purple-800"
    else if category == "follow-up" then "bg-pink-100 text-pink-800"
    else GeneralColor
  }
}
