/**
 * The converter a component class keeps (`cls.converter`): the same per-field parsers as a
 * component factory, computed by its own loop.
 */
module Converter {
  import opened Wrappers
  import opened OrderedDicts
  import Parsers
  import Fields
  import Factory

  /** A converter: the parser of each custom-id field by name, and the component class. */
  datatype Converter = Converter(parsers: Dict<string, Parsers.Parser>, component: Fields.ComponentClass)

  /**
   * `Converter.from_component(cls)`: each custom-id field's explicit parser, or else the
   * default of the parser class its annotation resolves to, stored under the field's name.
   * The mapping is exactly the one `ComponentFactory.from_component` builds.
   */
  method FromComponent(c: Factory.Ctx, cls: Fields.ComponentClass) returns (r: Result<Converter>)
    ensures r.Ok? <==> Factory.ParsersOf(c, Factory.IdFields(cls)).Ok?
    ensures r.Err? ==> r == Err(Factory.ParsersOf(c, Factory.IdFields(cls)).exc)
    ensures r.Ok? ==> r.value == Converter(Factory.ParsersOf(c, Factory.IdFields(cls)).value, cls)
  {
    var fs := Factory.IdFields(cls);
    var es := Factory.Entries(c, fs);
    var parsers: Dict<string, Parsers.Parser> := [];
    assert es[0..] == es;
    for i := 0 to |fs|
      invariant Factory.AssembleInto(parsers, es[i..]) == Factory.ParsersOf(c, fs)
    {
      Factory.AssembleAt(parsers, es, i);
      var p := Factory.ParserFor(c, fs[i]);
      if p.Err? {
        return Err(p.exc);
      }
      parsers := Put(parsers, fs[i].name, p.value);
    }
    assert es[|fs|..] == [];
    return Ok(Converter(parsers, cls));
  }
}
