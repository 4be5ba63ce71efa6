/** The static exclusion table: for each backend name, the cases that backend is
    known not to support. The runner indexes it directly, so a backend without
    an entry would make the lookup fault; it is never read as "no exclusions". */
module Exclusions {

  const Jinja2: string := "Jinja2"
  const Jinja2VariableStartString: string := "Jinja2-variable_start_string"
  const Tornado: string := "Tornado"
  const Django: string := "Django"
  const Mako: string := "Mako"
  const Html: string := "Html"

  /** Every name under which the test module ever registers a processor. */
  const RegistrableBackends: set<string> := {Jinja2, Jinja2VariableStartString, Tornado, Django, Mako, Html}

  /** The six names are pairwise different. */
  lemma BackendNamesDistinct()
    ensures Jinja2 != Jinja2VariableStartString && Jinja2 != Tornado && Jinja2 != Django && Jinja2 != Mako && Jinja2 != Html
    ensures Jinja2VariableStartString != Tornado && Jinja2VariableStartString != Django
    ensures Jinja2VariableStartString != Mako && Jinja2VariableStartString != Html
    ensures Tornado != Django && Tornado != Mako && Tornado != Html
    ensures Django != Mako && Django != Html && Mako != Html
  {
    assert Jinja2[0] == 'J' && Tornado[0] == 'T' && Django[0] == 'D' && Mako[0] == 'M' && Html[0] == 'H';
    assert |Jinja2| != |Jinja2VariableStartString|;
  }

  const Table: map<string, set<string>> := map[
    Html := {"mixins", "mixin.blocks", "layout", "unicode"},
    Mako := {"layout"},
    Tornado := {"layout"},
    Jinja2 := {"layout"},
    Jinja2VariableStartString := {"layout"},
    Django := {"layout"}
  ]

  /** `case in exclusions[backend]`: defined only for backends with an entry. */
  predicate IsExcluded(table: map<string, set<string>>, backend: string, caseName: string)
    requires backend in table
  {
    caseName in table[backend]
  }

  /** The table has an entry for exactly the registrable names, so the lookup
      never faults for a backend the module registers. */
  lemma TableCoversRegistrable()
    ensures Table.Keys == RegistrableBackends
  {
  }

  /** `layout` is excluded for every backend; `Html` also excludes `mixins`,
      `mixin.blocks` and `unicode`. */
  lemma TableExclusions()
    ensures forall b :: b in Table ==> IsExcluded(Table, b, "layout")
    ensures Table[Html] == {"mixins", "mixin.blocks", "layout", "unicode"}
  {
  }
}
