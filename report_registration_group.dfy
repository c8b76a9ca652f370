/**
 * routers/reportRegistrationGroup.py: `normalize_words`, which turns a name
 * into a slug over `[a-z0-9-]`, and the two administrator endpoints that
 * create a navigation group (a root, or a child of an existing group) whose
 * id is the slug of its name.
 */
module ReportRegistrationGroup {
  import opened Wrappers
  import opened Text
  import opened Query
  import opened Store
  import opened Access
  import opened Admin

  /** A character the pattern `[^a-z0-9]` does not match. */
  predicate IsSlugChar(c: char) {
    IsAsciiLower(c) || IsAsciiDigit(c)
  }

  predicate NotSlugChar(c: char) {
    !IsSlugChar(c)
  }

  predicate IsDash(c: char) {
    c == '-'
  }

  /** Every character is a slug character or '-', and no two '-' are adjacent. */
  predicate DashesSingle(s: string) {
    && (forall i :: 0 <= i < |s| ==> IsSlugChar(s[i]) || s[i] == '-')
    && (forall i :: 0 <= i < |s| - 1 ==> !(s[i] == '-' && s[i + 1] == '-'))
  }

  /** The shape `normalize_words` promises: `[a-z0-9-]`, single dashes, none at either end. */
  predicate IsSlug(s: string) {
    DashesSingle(s) && (|s| > 0 ==> s[0] != '-' && s[|s| - 1] != '-')
  }

  /** `re.sub(r"[^a-z0-9]+", "-", s)`: each maximal run of other characters becomes one '-'. */
  function Collapse(s: string): string
    decreases |s|
  {
    if |s| == 0 then []
    else if IsSlugChar(s[0]) then [s[0]] + Collapse(s[1..])
    else "-" + Collapse(TrimStart(s[1..], NotSlugChar))
  }

  /** `s.strip("-")`. */
  function StripDashes(s: string): string {
    TrimEnd(TrimStart(s, IsDash), IsDash)
  }

  /**
   * `normalize_words`, from the ASCII stage on: the argument is the name
   * after NFKD decomposition and the dropping of non-ASCII characters.
   */
  function NormalizeWords(ascii: string): string {
    StripDashes(Collapse(Strip(Lower(ascii))))
  }

  /** A slug character, or a '-' not followed by another, in front of single dashes keeps them single. */
  lemma DashesSingleCons(c: char, r: string)
    requires DashesSingle(r) && (IsSlugChar(c) || c == '-')
    requires c == '-' && |r| > 0 ==> r[0] != '-'
    ensures DashesSingle([c] + r)
  {
    var t := [c] + r;
    forall i | 0 <= i < |t| ensures IsSlugChar(t[i]) || t[i] == '-' {
      if i > 0 { assert t[i] == r[i - 1]; }
    }
    forall i | 0 <= i < |t| - 1 ensures !(t[i] == '-' && t[i + 1] == '-') {
      assert t[i + 1] == r[i];
      if i > 0 { assert t[i] == r[i - 1]; }
    }
  }

  /** The collapsed string has single dashes and keeps a leading slug character. */
  lemma {:induction false} CollapseShape(s: string)
    ensures DashesSingle(Collapse(s))
    ensures |s| > 0 && IsSlugChar(s[0]) ==> |Collapse(s)| > 0 && Collapse(s)[0] == s[0]
    decreases |s|
  {
    if |s| > 0 {
      if IsSlugChar(s[0]) {
        CollapseShape(s[1..]);
        DashesSingleCons(s[0], Collapse(s[1..]));
      } else {
        var t := TrimStart(s[1..], NotSlugChar);
        CollapseShape(t);
        var r := Collapse(t);
        assert |t| > 0 ==> IsSlugChar(t[0]);
        assert Collapse(s) == "-" + r;
        DashesSingleCons('-', r);
      }
    }
  }

  /** A contiguous piece of a string with single dashes has single dashes. */
  lemma SliceDashesSingle(s: string, i: nat, j: nat)
    requires DashesSingle(s) && i <= j <= |s|
    ensures DashesSingle(s[i..j])
  {
    var t := s[i..j];
    forall k | 0 <= k < |t| - 1 ensures !(t[k] == '-' && t[k + 1] == '-') {
      assert t[k] == s[i + k] && t[k + 1] == s[i + k + 1];
    }
  }

  /** Stripping the dashes of a string with single dashes leaves a slug. */
  lemma StripDashesIsSlug(c: string)
    requires DashesSingle(c)
    ensures IsSlug(StripDashes(c))
  {
    var a := TrimStart(c, IsDash);
    SliceDashesSingle(c, |c| - |a|, |c|);
    var b := TrimEnd(a, IsDash);
    SliceDashesSingle(a, 0, |b|);
    assert |b| > 0 ==> b[0] == a[0];
  }

  /** The output of `normalize_words` is a slug. */
  lemma NormalizeWordsIsSlug(ascii: string)
    ensures IsSlug(NormalizeWords(ascii))
  {
    CollapseShape(Strip(Lower(ascii)));
    StripDashesIsSlug(Collapse(Strip(Lower(ascii))));
  }

  /** A slug contains no upper-case letter, space or run to collapse: each step leaves it as it is. */
  lemma {:induction false} CollapseKeeps(s: string)
    requires DashesSingle(s) && (|s| > 0 ==> s[|s| - 1] != '-')
    ensures Collapse(s) == s
    decreases |s|
  {
    if |s| > 0 {
      var t := s[1..];
      assert DashesSingle(t) by {
        forall k | 0 <= k < |t| - 1 ensures !(t[k] == '-' && t[k + 1] == '-') {
          assert t[k] == s[k + 1] && t[k + 1] == s[k + 2];
        }
      }
      if IsSlugChar(s[0]) {
        CollapseKeeps(t);
        assert s == [s[0]] + t;
      } else {
        assert s[0] == '-' && |s| > 1 && IsSlugChar(t[0]);
        assert TrimStart(t, NotSlugChar) == t;
        CollapseKeeps(t);
        assert s == "-" + t;
      }
    }
  }

  /** A slug character or '-' is neither upper-case nor white space. */
  lemma SlugCharPlain(c: char)
    requires IsSlugChar(c) || c == '-'
    ensures LowerChar(c) == c && !IsPySpace(c)
  {
  }

  /** A slug is left as it is by `lower()`. */
  lemma SlugLowerFixed(s: string)
    requires DashesSingle(s)
    ensures Lower(s) == s
  {
    forall i | 0 <= i < |s| ensures Lower(s)[i] == s[i] {
      SlugCharPlain(s[i]);
    }
  }

  lemma SlugFixed(s: string)
    requires IsSlug(s)
    ensures NormalizeWords(s) == s
  {
    SlugLowerFixed(s);
    SlugStripFixed(s);
    CollapseKeeps(s);
    SlugDashesFixed(s);
  }

  /** A slug has no surrounding white space. */
  lemma SlugStripFixed(s: string)
    requires IsSlug(s)
    ensures Strip(s) == s
  {
    if |s| > 0 {
      SlugCharPlain(s[0]);
      SlugCharPlain(s[|s| - 1]);
    }
    StripUnchanged(s);
  }

  /** A slug has no surrounding dashes. */
  lemma SlugDashesFixed(s: string)
    requires IsSlug(s)
    ensures StripDashes(s) == s
  {
    assert TrimStart(s, IsDash) == s;
    assert TrimEnd(s, IsDash) == s;
  }

  /** `normalize_words(normalize_words(x)) == normalize_words(x)`. */
  lemma NormalizeWordsIdempotent(ascii: string)
    ensures NormalizeWords(NormalizeWords(ascii)) == NormalizeWords(ascii)
  {
    NormalizeWordsIsSlug(ascii);
    SlugFixed(NormalizeWords(ascii));
  }

  /** `{"message": ..., "id": ...}`, the body of a 201 response. */
  datatype Created = Created(message: string, id: GroupId)

  /** `func.lower(Group.name) == func.lower(name)`. */
  predicate SameNameIgnoringCase(a: string, b: string) {
    Lower(a) == Lower(b)
  }

  /**
   * `create_report_group`, decided on the groups table: 403 for a
   * non-administrator, 409 when the slug is an id in use, then 409 when a
   * group of any parent has the name up to case, and otherwise the new
   * active root group.
   */
  function ReportGroupDecision(groups: seq<Group>, current: Viewer, slug: GroupId, name: string)
    : (r: Result<Group, HttpError>)
    ensures !IsAdmin(current) ==> r == Err(HttpError(403, "Admin only"))
    ensures IsAdmin(current) && (exists g :: g in groups && g.id == slug) ==>
      r == Err(HttpError(409, "Já existe um grupo com este ID (slug)."))
    ensures (&& IsAdmin(current) && (forall g :: g in groups ==> g.id != slug)
             && (exists g :: g in groups && SameNameIgnoringCase(g.name, name)))
      ==> r == Err(HttpError(409, "Já existe um grupo com este nome."))
    ensures r.Ok? <==> IsAdmin(current) && (forall g :: g in groups ==> g.id != slug && !SameNameIgnoringCase(g.name, name))
    ensures r.Ok? ==> r.value == Group(slug, Strip(name), None, true)
  {
    match RequireAdmin(current)
    case Err(e) => Err(e)
    case Ok(_) =>
      if GroupById(groups, slug).Some? then Err(HttpError(409, "Já existe um grupo com este ID (slug)."))
      else if First(groups, (g: Group) => SameNameIgnoringCase(g.name, name)).Some? then
        var w := First(groups, (g: Group) => SameNameIgnoringCase(g.name, name)).value;
        assert w in groups;
        Err(HttpError(409, "Já existe um grupo com este nome."))
      else Ok(Group(slug, Strip(name), None, true))
  }

  /**
   * `create_report_subgroup`, decided on the groups table: 403 for a
   * non-administrator, 404 when no group (active or not) has the parent id,
   * 409 when the slug is an id in use, then 409 when a sibling under the same
   * parent has the name up to case, and otherwise the new active child.
   */
  function ReportSubgroupDecision(groups: seq<Group>, current: Viewer, parentId: GroupId, slug: GroupId, name: string)
    : (r: Result<Group, HttpError>)
    ensures !IsAdmin(current) ==> r == Err(HttpError(403, "Admin only"))
    ensures IsAdmin(current) && (forall g :: g in groups ==> g.id != parentId) ==>
      r == Err(HttpError(404, "Grupo pai não encontrado."))
    ensures (&& IsAdmin(current) && (exists g :: g in groups && g.id == parentId)
             && (exists g :: g in groups && g.id == slug))
      ==> r == Err(HttpError(409, "Já existe um subgrupo com este ID (slug)."))
    ensures (&& IsAdmin(current) && (exists g :: g in groups && g.id == parentId)
             && (forall g :: g in groups ==> g.id != slug)
             && (exists g :: g in groups && g.parentId == Some(parentId) && SameNameIgnoringCase(g.name, name)))
      ==> r == Err(HttpError(409, "Já existe um subgrupo com este nome nesse grupo pai."))
    ensures r.Ok? <==> (&& IsAdmin(current) && (exists g :: g in groups && g.id == parentId)
                        && (forall g :: g in groups ==> g.id != slug)
                        && (forall g :: g in groups && g.parentId == Some(parentId) ==> !SameNameIgnoringCase(g.name, name)))
    ensures r.Ok? ==> r.value == Group(slug, Strip(name), Some(parentId), true)
  {
    match RequireAdmin(current)
    case Err(e) => Err(e)
    case Ok(_) =>
      if GroupById(groups, parentId).None? then Err(HttpError(404, "Grupo pai não encontrado."))
      else if GroupById(groups, slug).Some? then Err(HttpError(409, "Já existe um subgrupo com este ID (slug)."))
      else if First(groups, (g: Group) => SameNameIgnoringCase(g.name, name) && g.parentId == Some(parentId)).Some? then
        var w := First(groups, (g: Group) => SameNameIgnoringCase(g.name, name) && g.parentId == Some(parentId)).value;
        assert w in groups;
        Err(HttpError(409, "Já existe um subgrupo com este nome nesse grupo pai."))
      else Ok(Group(slug, Strip(name), Some(parentId), true))
  }

  /**
   * The endpoint `create_report_group`: the table gains the decided group
   * and nothing else changes; the database constraints still hold. `asciiFold`
   * is the NFKD decomposition and ASCII drop at the start of `normalize_words`.
   */
  method CreateReportGroup(db: Database, current: Viewer, asciiFold: string -> string, name: string)
    returns (r: Result<Created, HttpError>)
    requires db.Valid()
    modifies db`groups
    ensures db.Valid()
    ensures match ReportGroupDecision(old(db.groups), current, NormalizeWords(asciiFold(name)), name)
      case Err(e) => r == Err(e) && db.groups == old(db.groups)
      case Ok(g) => r == Ok(Created("Grupo criado com sucesso!", g.id)) && db.groups == old(db.groups) + [g]
  {
    var slug := NormalizeWords(asciiFold(name));
    var d := ReportGroupDecision(db.groups, current, slug, name);
    match d
    case Err(e) => r := Err(e);
    case Ok(g) =>
      db.AddGroup(g);
      r := Ok(Created("Grupo criado com sucesso!", g.id));
  }

  /** The endpoint `create_report_subgroup`, on the table as above. */
  method CreateReportSubgroup(db: Database, current: Viewer, asciiFold: string -> string, parentId: GroupId, name: string)
    returns (r: Result<Created, HttpError>)
    requires db.Valid()
    modifies db`groups
    ensures db.Valid()
    ensures match ReportSubgroupDecision(old(db.groups), current, parentId, NormalizeWords(asciiFold(name)), name)
      case Err(e) => r == Err(e) && db.groups == old(db.groups)
      case Ok(g) => r == Ok(Created("Subgrupo criado com sucesso!", g.id)) && db.groups == old(db.groups) + [g]
  {
    var slug := NormalizeWords(asciiFold(name));
    var d := ReportSubgroupDecision(db.groups, current, parentId, slug, name);
    match d
    case Err(e) => r := Err(e);
    case Ok(g) =>
      db.AddGroup(g);
      r := Ok(Created("Subgrupo criado com sucesso!", g.id));
  }

  /** A created group's id is a slug, and exactly one new active group holds it. */
  lemma CreatedGroupIsFreshSlug(groups: seq<Group>, current: Viewer, asciiName: string, name: string)
    requires ReportGroupDecision(groups, current, NormalizeWords(asciiName), name).Ok?
    ensures var g := ReportGroupDecision(groups, current, NormalizeWords(asciiName), name).value;
      IsSlug(g.id) && g.isActive && g.parentId == None && (forall h :: h in groups ==> h.id != g.id)
  {
    NormalizeWordsIsSlug(asciiName);
  }
}
