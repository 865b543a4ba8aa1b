/** Gene records, the query that carries them, and the pure helpers both
    controllers share: reading the control list into a dictionary and
    deriving the key under which an input gene is matched against gene-set
    member lists. */
module Genes {

  datatype Option<T> = None | Some(value: T)

  /** Outcome of an enrichment run: the expanded gene list, or the gene set
      whose contingency table had a negative cell (the exact test raises on
      such a table and the whole request fails). */
  datatype Result<T> = Ok(value: T) | Err(geneSetId: string)

  /** The namespace prefix of a cross-reference (Entrez) identifier. */
  const EntrezPrefix: string := "NCBIGene:"

  datatype Identifiers = Identifiers(entrez: Option<string>)

  /** The four provenance attributes the expanders attach, plus whatever
      attributes a caller's gene already carries. */
  datatype Attribute =
    | GeneSetAttr(geneSetId: string)
    | PValueAttr(pValue: real)
    | QValueAttr(qValue: real)
    | OddsRatioAttr(oddsRatio: real)
    | OtherAttr(name: string, value: string)

  datatype Gene = Gene(geneId: string, identifiers: Option<Identifiers>, attributes: seq<Attribute>)

  /** One named control value of a query (its value already a number). */
  datatype Control = Control(name: string, value: real)

  /** The query object. Its gene list is the very list the expanders append
      to and return, so the caller's query changes in place. */
  class Query {
    var genes: seq<Gene>
    var controls: seq<Control>

    constructor (genes: seq<Gene>, controls: seq<Control>)
      ensures this.genes == genes && this.controls == controls
    {
      this.genes := genes;
      this.controls := controls;
    }
  }

  /** `{control.name: control.value for control in query.controls}`: a later
      control with the same name overwrites an earlier one. */
  function ControlDict(cs: seq<Control>): (d: map<string, real>)
  {
    if cs == [] then map[]
    else ControlDict(cs[..|cs| - 1])[cs[|cs| - 1].name := cs[|cs| - 1].value]
  }

  /** No control after position i has the same name. */
  predicate LastOfName(cs: seq<Control>, i: int)
    requires 0 <= i < |cs|
  {
    forall j :: i < j < |cs| ==> cs[j].name != cs[i].name
  }

  /** The dictionary holds exactly the names of the list, and each name maps
      to the value of its last occurrence. */
  lemma {:induction false} ControlDictLastWins(cs: seq<Control>)
    ensures forall name :: name in ControlDict(cs) <==> exists i :: 0 <= i < |cs| && cs[i].name == name
    ensures forall i :: 0 <= i < |cs| && LastOfName(cs, i) ==> ControlDict(cs)[cs[i].name] == cs[i].value
  {
    if cs != [] {
      var init := cs[..|cs| - 1];
      ControlDictLastWins(init);
      forall name | name in ControlDict(cs)
        ensures exists i :: 0 <= i < |cs| && cs[i].name == name
      {
        if name != cs[|cs| - 1].name {
          assert name in ControlDict(init);
          var i :| 0 <= i < |init| && init[i].name == name;
          assert cs[i].name == name;
        }
      }
      forall name | exists i :: 0 <= i < |cs| && cs[i].name == name
        ensures name in ControlDict(cs)
      {
        var i :| 0 <= i < |cs| && cs[i].name == name;
        if i < |init| {
          assert init[i].name == name;
        }
      }
      forall i | 0 <= i < |cs| && LastOfName(cs, i)
        ensures ControlDict(cs)[cs[i].name] == cs[i].value
      {
        if i < |init| {
          assert init[i] == cs[i];
          assert forall j :: i < j < |init| ==> init[j].name != init[i].name by {
            forall j | i < j < |init| ensures init[j].name != init[i].name {
              assert init[j] == cs[j];
            }
          }
        }
      }
    }
  }

  /** The named controls a query may carry. */
  datatype ControlKind = MaxPValue | MaxQValue

  /** The name under which a control is looked up in the query's controls
      (the name table maps each control to itself). */
  function ControlName(kind: ControlKind): string
  {
    match kind
    case MaxPValue => "max p-value"
    case MaxQValue => "max q-value"
  }

  /** The value a control takes when the query does not supply it. */
  function DefaultControl(kind: ControlKind): real
  {
    match kind
    case MaxPValue => 0.00001
    case MaxQValue => 0.05
  }

  /** The control's value: the one supplied under its name, otherwise its
      default. */
  function GetControl(controls: map<string, real>, kind: ControlKind): (v: real)
    ensures ControlName(kind) in controls ==> v == controls[ControlName(kind)]
    ensures ControlName(kind) !in controls ==> v == DefaultControl(kind)
  {
    if ControlName(kind) in controls then controls[ControlName(kind)] else DefaultControl(kind)
  }

  /** Read against the query's own control list: the value of the last
      control of that name when there is one, and otherwise 1e-5 for the
      p-value threshold and 0.05 for the q-value threshold. */
  lemma ControlOfQuery(cs: seq<Control>, kind: ControlKind)
    ensures forall i :: 0 <= i < |cs| && cs[i].name == ControlName(kind) && LastOfName(cs, i) ==>
              GetControl(ControlDict(cs), kind) == cs[i].value
    ensures (forall i :: 0 <= i < |cs| ==> cs[i].name != ControlName(kind)) ==>
              GetControl(ControlDict(cs), kind) == (if kind == MaxPValue then 0.00001 else 0.05)
  {
    ControlDictLastWins(cs);
  }

  /** Whether an identifier carries the "NCBIGene:" namespace prefix. */
  predicate HasEntrezPrefix(s: string)
  {
    EntrezPrefix <= s
  }

  /** The Entrez identifier of a gene with its "NCBIGene:" prefix removed,
      the identifier unchanged when it has no such prefix, and None when the
      gene has no identifiers record or that record no Entrez identifier. */
  function EntrezGeneId(gene: Gene): (r: Option<string>)
    ensures r.Some? <==> gene.identifiers.Some? && gene.identifiers.value.entrez.Some?
    ensures r.Some? && HasEntrezPrefix(gene.identifiers.value.entrez.value) ==>
              EntrezPrefix + r.value == gene.identifiers.value.entrez.value
    ensures r.Some? && !HasEntrezPrefix(gene.identifiers.value.entrez.value) ==>
              r.value == gene.identifiers.value.entrez.value
  {
    if gene.identifiers.Some? && gene.identifiers.value.entrez.Some? then
      var entrez := gene.identifiers.value.entrez.value;
      if HasEntrezPrefix(entrez) then Some(entrez[|EntrezPrefix|..]) else Some(entrez)
    else
      None
  }

  /** Stripping is undone by prefixing: a gene whose Entrez identifier is
      "NCBIGene:" + m is keyed by m. */
  lemma EntrezGeneIdOfPrefixed(gene: Gene, m: string)
    requires gene.identifiers == Some(Identifiers(Some(EntrezPrefix + m)))
    ensures EntrezGeneId(gene) == Some(m)
  {
    assert (EntrezPrefix + m)[|EntrezPrefix|..] == m;
  }

  /** Removing the prefix from a prefixed identifier gives back what was
      prefixed. */
  lemma StripPrefixed(m: string)
    ensures HasEntrezPrefix(EntrezPrefix + m)
    ensures (EntrezPrefix + m)[|EntrezPrefix|..] == m
  {
  }

  /** The key an input gene is stored under: its stripped Entrez identifier
      when there is one, otherwise its primary identifier. */
  function GeneKey(gene: Gene): (k: string)
    ensures EntrezGeneId(gene).Some? ==> k == EntrezGeneId(gene).value
    ensures EntrezGeneId(gene).None? ==> k == gene.geneId
  {
    match EntrezGeneId(gene)
    case Some(id) => id
    case None => gene.geneId
  }

  /** The keys of the `genes` dictionary built from the input gene list. */
  function InputKeys(genes: seq<Gene>): (keys: set<string>)
    ensures forall g :: g in genes ==> GeneKey(g) in keys
    ensures forall k :: k in keys ==> exists g :: g in genes && GeneKey(g) == k
  {
    set g | g in genes :: GeneKey(g)
  }
}
