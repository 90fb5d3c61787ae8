/** The template service: an array of message templates with max+1 ids.
    `update` overwrites the four editable fields and the update stamp. */
module TemplateService {
  import opened Base
  import opened Store

  datatype Template = Template(
    id: int,
    name: string,
    description: string,
    content: string,
    category: string,
    createdAt: Time,
    updatedAt: Time)

  /** The form fields `create` and `update` copy from the caller. */
  datatype TemplateForm = TemplateForm(name: string, description: string, content: string, category: string)

  function IdOf(t: Template): int { t.id }

  /** `getById`. */
  function GetById(s: seq<Template>, id: int): (r: Result<Template>)
    ensures r.Err? <==> !HasKey(s, IdOf, id)
    ensures r.Err? ==> r.error == NotFound("Template")
    ensures r.Ok? ==> r.value in s && r.value.id == id
    ensures r.Ok? ==> exists k :: 0 <= k < |s| && s[k] == r.value && forall j :: 0 <= j < k ==> s[j].id != id
  {
    match IndexOf(s, IdOf, id)
    case None => Err(NotFound("Template"))
    case Some(k) => Ok(s[k])
  }

  /** `create`: append a template with id max+1 holding exactly the form fields. */
  function Create(s: seq<Template>, f: TemplateForm, now: Time): (r: (seq<Template>, Template))
    ensures r.0 == s + [r.1]
    ensures forall i :: 0 <= i < |s| ==> s[i].id < r.1.id
    ensures |s| == 0 ==> r.1.id == 1
    ensures |s| > 0 ==> HasKey(s, IdOf, r.1.id - 1)
    ensures TemplateForm(r.1.name, r.1.description, r.1.content, r.1.category) == f
    ensures r.1.createdAt == now && r.1.updatedAt == now
  {
    var t := Template(NextKey(s, IdOf), f.name, f.description, f.content, f.category, now, now);
    (s + [t], t)
  }

  /** `update`: overwrite the four form fields and `updatedAt`; the id and
      `createdAt` stay. */
  function Update(s: seq<Template>, id: int, f: TemplateForm, now: Time): (r: Result<(seq<Template>, Template)>)
    ensures r.Err? <==> !HasKey(s, IdOf, id)
    ensures r.Err? ==> r.error == NotFound("Template")
    ensures r.Ok? ==> exists k :: 0 <= k < |s| && s[k].id == id && (forall j :: 0 <= j < k ==> s[j].id != id) && r.value.0 == s[k := r.value.1] && r.value.1.createdAt == s[k].createdAt
    ensures r.Ok? ==> r.value.1.id == id && r.value.1.updatedAt == now
    ensures r.Ok? ==> TemplateForm(r.value.1.name, r.value.1.description, r.value.1.content, r.value.1.category) == f
  {
    match IndexOf(s, IdOf, id)
    case None => Err(NotFound("Template"))
    case Some(k) =>
      var t := s[k].(name := f.name, description := f.description, content := f.content,
                     category := f.category, updatedAt := now);
      Ok((s[k := t], t))
  }

  /** `delete`: splice the template out. */
  function Delete(s: seq<Template>, id: int): (r: Result<seq<Template>>)
    ensures r.Err? <==> !HasKey(s, IdOf, id)
    ensures r.Err? ==> r.error == NotFound("Template")
    ensures r.Ok? ==> exists k :: 0 <= k < |s| && s[k].id == id && (forall j :: 0 <= j < k ==> s[j].id != id) && r.value == s[..k] + s[k + 1..]
  {
    match IndexOf(s, IdOf, id)
    case None => Err(NotFound("Template"))
    case Some(k) => Ok(RemoveAt(s, k))
  }

  /** Editing a template and reading it back by id returns the edited record. */
  lemma UpdateThenGet(s: seq<Template>, id: int, f: TemplateForm, now: Time)
    requires UniqueKeys(s, IdOf)
    requires Update(s, id, f, now).Ok?
    ensures GetById(Update(s, id, f, now).value.0, id) == Ok(Update(s, id, f, now).value.1)
  {
    var k := IndexOf(s, IdOf, id).value;
    var (s', t) := Update(s, id, f, now).value;
    var k0 :| 0 <= k0 < |s| && s[k0].id == id && s' == s[k0 := t];
    assert k0 == k;
    assert s'[k] == t && t.id == id;
    assert forall j :: 0 <= j < k ==> s'[j].id != id;
    IndexOfFirst(s', IdOf, id, k);
  }

  /** After a delete no template with that id is left, given unique ids. */
  lemma DeleteRemovesId(s: seq<Template>, id: int)
    requires UniqueKeys(s, IdOf)
    requires Delete(s, id).Ok?
    ensures GetById(Delete(s, id).value, id).Err?
    ensures UniqueKeys(Delete(s, id).value, IdOf)
  {
    RemoveAtKeepsUnique(s, IdOf, IndexOf(s, IdOf, id).value);
  }
}
