/**
 * The relation declarations of the platform's own schema text
 * (internal/accessmodel/schema.go:52-68).
 */
module PlatformText {
  import opened Wrappers
  import opened Schemas
  import opened Text
  import opened SchemaText
  import opened SchemaLines
  import opened RelationLines
  import Lifecycle

  function Direct(name: string, blanks: nat): Declaration {
    Declaration(RelationDef(name, false, WildcardNone), blanks)
  }

  /** Grants and reach may be given on every object of a type at once. */
  function OnStars(name: string, blanks: nat): Declaration {
    Declaration(RelationDef(name, false, WildcardObject), blanks)
  }

  const PRINCIPALS := [
    Declaration(RelationDef("member_of", true, WildcardNone), 1),
    Direct("holder", 4),
    Direct("owner", 5)]

  const STRUCTURE := [
    Direct("org", 7),
    OnStars("belongs", 3),
    Direct("suspended", 1),
    OnStars("oversees", 2)]

  const GRANTS := [
    OnStars("can_read", 3),
    OnStars("can_write", 2),
    OnStars("can_update", 1),
    OnStars("can_manage", 1),
    OnStars("can_invite", 1),
    OnStars("can_remove", 1)]

  const DECLARATIONS := PRINCIPALS + STRUCTURE + GRANTS

  lemma PlatformNamesApart()
    ensures NamesApart(DECLARATIONS)
  {
    var ds := DECLARATIONS;
    forall i, j | 0 <= i < j < |ds| ensures ds[i].def.name != ds[j].def.name {
    }
  }

  lemma PrincipalIdents()
    ensures forall d :: d in PRINCIPALS ==> ValidIdent(d.def.name)
  {
  }

  lemma StructureIdents()
    ensures forall d :: d in STRUCTURE ==> ValidIdent(d.def.name)
  {
  }

  lemma GrantIdents()
    ensures ValidIdent("can_read") && ValidIdent("can_write") && ValidIdent("can_update")
    ensures ValidIdent("can_manage") && ValidIdent("can_invite") && ValidIdent("can_remove")
  {
  }

  lemma PlatformNamesAreIdents()
    ensures forall d :: d in DECLARATIONS ==> ValidIdent(d.def.name)
  {
    PrincipalIdents();
    StructureIdents();
    GrantIdents();
  }

  /** The platform's declaration lines are read as exactly its thirteen relations, each with its definition. */
  lemma PlatformDeclarationsRead(st: ParserState) returns (relations: map<string, RelationDef>)
    requires st.Sound() && st.schema.relations == map[]
    ensures Leads(st, LinesFor(DECLARATIONS), st.(schema := st.schema.(relations := relations)))
    ensures Defines(map[], DECLARATIONS, relations) && |DECLARATIONS| == 13
  {
    PlatformNamesApart();
    PlatformNamesAreIdents();
    relations := DeclarationsDefine(st, DECLARATIONS);
  }

  lemma MembershipWords()
    ensures Lifecycle.PlatformRelation("member_of") == RelationDef("member_of", true, WildcardNone)
    ensures Lifecycle.PlatformRelation("holder") == RelationDef("holder", false, WildcardNone)
    ensures Lifecycle.PlatformRelation("belongs") == RelationDef("belongs", false, WildcardObject)
    ensures Lifecycle.PlatformRelation("suspended") == RelationDef("suspended", false, WildcardNone)
    ensures Lifecycle.PlatformRelation("oversees") == RelationDef("oversees", false, WildcardObject)
  {
    assert "member_of"[0] == 'm' && "holder"[0] == 'h' && "belongs"[0] == 'b' && "suspended"[0] == 's' && "oversees"[0] == 'o';
  }

  /** The definitions membership is proved about are those of the declaration lines. */
  lemma MembershipDeclaresThese(relations: map<string, RelationDef>, rel: string)
    requires Defines(map[], DECLARATIONS, relations)
    requires rel == "member_of" || rel == "holder" || rel == "belongs" || rel == "suspended" || rel == "oversees"
    ensures rel in relations && relations[rel] == Lifecycle.PlatformRelation(rel)
  {
    var ds := DECLARATIONS;
    var i := if rel == "member_of" then 0 else if rel == "holder" then 1 else if rel == "belongs" then 4 else if rel == "suspended" then 5 else 6;
    MembershipWords();
    var d := ds[i];
    assert d in ds && d.def.name == rel;
  }
}
