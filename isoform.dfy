/** Isoform.java: the top-level isoform record, with lists created on first use. */
module IsoformBeans {
  import opened Wrappers
  import Modifications

  class Isoform {
    var id: Option<string>
    var url: Option<string>
    var names: Option<seq<string>>
    var sequence: Option<string>
    var modifications: Option<seq<Modifications.Modification>>
    var basedOn: Option<string>

    constructor ()
      ensures id == None && url == None && names == None && sequence == None
      ensures modifications == None && basedOn == None
    {
      id := None;
      url := None;
      names := None;
      sequence := None;
      modifications := None;
      basedOn := None;
    }

    /** Creates the list when it is null, then appends; nothing else changes. */
    method AddName(name: string)
      modifies this
      ensures names == Some(Entries(old(names)) + [name])
      ensures old(names).None? ==> names == Some([name])
      ensures id == old(id) && url == old(url) && sequence == old(sequence)
      ensures modifications == old(modifications) && basedOn == old(basedOn)
    {
      if names.None? {
        names := Some([]);
      }
      assert [] + [name] == [name];
      names := Some(names.value + [name]);
    }

    /** Creates the list when it is null, then appends; nothing else changes. */
    method AddModification(modification: Modifications.Modification)
      modifies this
      ensures modifications == Some(Entries(old(modifications)) + [modification])
      ensures old(modifications).None? ==> modifications == Some([modification])
      ensures id == old(id) && url == old(url) && names == old(names)
      ensures sequence == old(sequence) && basedOn == old(basedOn)
    {
      if modifications.None? {
        modifications := Some([]);
      }
      assert [] + [modification] == [modification];
      modifications := Some(modifications.value + [modification]);
    }

    method SetId(id: Option<string>)
      modifies this
      ensures this.id == id
      ensures url == old(url) && names == old(names) && sequence == old(sequence)
      ensures modifications == old(modifications) && basedOn == old(basedOn)
    {
      this.id := id;
    }

    method SetUrl(url: Option<string>)
      modifies this
      ensures this.url == url
      ensures id == old(id) && names == old(names) && sequence == old(sequence)
      ensures modifications == old(modifications) && basedOn == old(basedOn)
    {
      this.url := url;
    }

    method SetNames(names: Option<seq<string>>)
      modifies this
      ensures this.names == names
      ensures id == old(id) && url == old(url) && sequence == old(sequence)
      ensures modifications == old(modifications) && basedOn == old(basedOn)
    {
      this.names := names;
    }

    method SetSequence(sequence: Option<string>)
      modifies this
      ensures this.sequence == sequence
      ensures id == old(id) && url == old(url) && names == old(names)
      ensures modifications == old(modifications) && basedOn == old(basedOn)
    {
      this.sequence := sequence;
    }

    method SetModifications(modifications: Option<seq<Modifications.Modification>>)
      modifies this
      ensures this.modifications == modifications
      ensures id == old(id) && url == old(url) && names == old(names)
      ensures sequence == old(sequence) && basedOn == old(basedOn)
    {
      this.modifications := modifications;
    }

    method SetBasedOn(basedOn: Option<string>)
      modifies this
      ensures this.basedOn == basedOn
      ensures id == old(id) && url == old(url) && names == old(names)
      ensures sequence == old(sequence) && modifications == old(modifications)
    {
      this.basedOn := basedOn;
    }
  }
}
