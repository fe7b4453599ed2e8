/** The project configuration (`idl.yaml`): where to publish, what the project provides and
    which other projects it depends on. Only the records and the repository override rule are
    modelled; reading and writing the YAML text is not part of this model. */
module Config {

  /** A project this one pulls; an empty `repository` means "use the configuration's". */
  datatype Dependency = Dependency(name: string, version: string, idlType: string, repository: string)

  /** A directory this project publishes, with its ignore-file name or inline patterns. */
  datatype Provide = Provide(root: string, idlType: string, idlIgnore: string)

  datatype Configuration = Configuration(
    repository: string,
    name: string,
    idlDirectory: string,
    dependencies: seq<Dependency>,
    provided: seq<Provide>)

  /** `ResolveRepository`: the dependency's own repository overrides the top-level one. */
  function ResolveRepository(c: Configuration, d: Dependency): (r: string)
    ensures d.repository != "" ==> r == d.repository
    ensures d.repository == "" ==> r == c.repository
  {
    if d.repository != "" then d.repository else c.repository
  }

  /** Writing the resolved repository into the dependency changes nothing: the rule is a
      fixed point. */
  lemma ResolveRepositoryStable(c: Configuration, d: Dependency)
    ensures var r := ResolveRepository(c, d);
      ResolveRepository(c, d.(repository := r)) == r
  {
  }

  /** The configuration of the unmarshalling fixture, as its fields are read back. */
  const Fixture := Configuration(
    "first.example.com", "stuff", "./idl",
    [Dependency("dependency1", "0.7.0", "protobuf", ""),
     Dependency("dependency2", "2.9.4", "avro", "second.example.net")],
    [Provide("./docs/protos", "protobuf", "custom_ignore_file"),
     Provide("./docs/avros", "avro", ".noise\n.tmp\n*~")])

  /** In the fixture, the dependency without a repository resolves to the top-level one and
      the other keeps its own. */
  lemma FixtureRepositories()
    ensures ResolveRepository(Fixture, Fixture.dependencies[0]) == "first.example.com"
    ensures ResolveRepository(Fixture, Fixture.dependencies[1]) == "second.example.net"
  {
  }
}
