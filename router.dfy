/** The HTTP handlers of the repository server: list projects, types and versions, store an
    uploaded archive and serve it back. The muxer that routes requests and encodes responses
    is not part of this model; a handler sees its route arguments as a map and its request
    body as a stream. */
module Router {
  import opened Wrappers
  import opened Sequences
  import opened Paths
  import opened FileSystem
  import opened Storage

  /** The named route arguments (`{project}`, `{type}`, `{version}`). */
  type Args = map<string, string>

  /** What a JSON response carries: a name list (nil when the storage returned no list),
      a message, or nothing. */
  datatype Model = Names(names: Option<seq<string>>) | Message(text: string) | NoModel

  datatype JsonResponse = JsonResponse(status: int, model: Model)

  datatype DataResponse = DataResponse(status: int, data: Option<Stream>, error: string)

  const PayloadName := "data.tar.gz"

  /** The storage path `/n0/n1/...` a handler formats from its route arguments. */
  function NamedPath(names: seq<string>): (p: string) {
    "/" + Join(names, '/')
  }

  function ProjectPath(project: string): (p: string) {
    NamedPath(["projects", project])
  }

  function TypePath(project: string, idlType: string): (p: string) {
    NamedPath(["projects", project, idlType])
  }

  function VersionPath(project: string, idlType: string, version: string): (p: string) {
    NamedPath(["projects", project, idlType, version])
  }

  function PayloadPath(project: string, idlType: string, version: string): (p: string) {
    NamedPath(["projects", project, idlType, version, PayloadName])
  }

  /** A path spelled out from plain names resolves to those names below the base. */
  lemma SecurePathOfNames(base: Path, names: seq<string>)
    requires IsClean(base) && IsClean(names) && |names| >= 1
    ensures SecurePath(base, NamedPath(names)) == Ok(base + names)
  {
    SecurePathOfRooted(base, Join(names, '/'));
    SplitJoin(names, '/');
    ResolveClean(base, names);
  }

  /** With plain names, the four paths a handler builds land in the expected place below
      the base directory, each one inside the previous. */
  lemma ArtifactPathsResolve(base: Path, project: string, idlType: string, version: string)
    requires IsClean(base) && IsSegment(project) && IsSegment(idlType) && IsSegment(version)
    ensures SecurePath(base, ProjectPath(project)) == Ok(base + ["projects", project])
    ensures SecurePath(base, TypePath(project, idlType)) == Ok(base + ["projects", project, idlType])
    ensures SecurePath(base, VersionPath(project, idlType, version))
         == Ok(base + ["projects", project, idlType, version])
    ensures SecurePath(base, PayloadPath(project, idlType, version))
         == Ok(base + ["projects", project, idlType, version, PayloadName])
  {
    var names := ["projects", project, idlType, version, PayloadName];
    assert IsSegment("projects") && IsSegment(PayloadName);
    assert IsClean(names);
    assert forall n :: 2 <= n <= 5 ==> IsClean(names[..n]);
    assert names[..2] == ["projects", project] && names[..3] == ["projects", project, idlType];
    assert names[..4] == ["projects", project, idlType, version];
    SecurePathOfNames(base, names[..2]);
    SecurePathOfNames(base, names[..3]);
    SecurePathOfNames(base, names[..4]);
    SecurePathOfNames(base, names);
  }

  /** Route arguments are not checked: a project named `../..` reaches the parent of the
      base directory. */
  lemma ProjectArgumentEscapes()
    ensures SecurePath(["srv", "idl"], ProjectPath("../..")) == Ok(["srv"])
  {
    var names := ["projects", "..", ".."];
    assert Join(names, '/') == "projects" + ['/'] + (".." + ['/'] + "..");
    assert Join(["projects", "../.."], '/') == Join(names, '/');
    SecurePathOfRooted(["srv", "idl"], Join(names, '/'));
    SplitJoin(names, '/');
    ClimbTwice();
  }

  /** Two `..` elements after `projects` climb one level above `/srv/idl`. */
  lemma ClimbTwice()
    ensures Resolve(["srv", "idl"], ["projects", "..", ".."]) == ["srv"]
  {
    var p: Path := ["srv", "idl", "projects"];
    assert Step(["srv", "idl"], "projects") == p;
    assert Step(p, "..") == p[..2] == ["srv", "idl"];
    assert Step(["srv", "idl"], "..") == ["srv"];
    assert ["projects", "..", ".."][1..] == ["..", ".."] && ["..", ".."][1..] == [".."];
    assert Resolve(["srv"], []) == ["srv"];
    assert Resolve(["srv", "idl"], [".."]) == ["srv"];
    assert Resolve(p, ["..", ".."]) == ["srv"];
  }

  class ProjectRouter {
    const storage: FileStorage

    constructor(storage: FileStorage)
      ensures this.storage == storage
    {
      this.storage := storage;
    }

    /** `listHandler`: 200 with the folders under `/projects` (an empty list before the first
        upload); a storage error is passed through. */
    method ListHandler() returns (r: Result<JsonResponse>)
      requires storage.Valid()
      ensures var full := storage.Resolved("/projects");
        && r.Ok? && r.value.status == 200 && r.value.model.Names?
        && (full !in storage.fs ==> r.value.model.names == Some([]))
        && (full in storage.fs && storage.fs[full].File? ==> r.value.model.names == None)
        && (full in storage.fs && storage.fs[full] == Dir ==>
              r.value.model.names.Some? && SubdirListing(storage.fs, full, r.value.model.names.value))
    {
      var projects := storage.ListFolders("/projects");
      match projects {
        case Err(e) => return Err(e);
        case Ok(names) => return Ok(JsonResponse(200, Names(names)));
      }
    }

    /** `listTypeHandler`: 404 naming the project when it does not exist, otherwise 200 with
        the folders under it. */
    method ListTypeHandler(args: Args) returns (r: Result<JsonResponse>)
      requires storage.Valid()
      ensures "project" !in args ==> r == Err("failed to get project from args")
      ensures "project" in args ==> var project := args["project"];
        && (!storage.Exists(ProjectPath(project)) <==>
              r == Ok(JsonResponse(404, Message("project '" + project + "' does not exist"))))
        && (storage.Exists(ProjectPath(project)) ==> var full := storage.Resolved(ProjectPath(project));
              && r.Ok? && r.value.status == 200 && r.value.model.Names?
              && (full !in storage.fs ==> r.value.model.names == Some([]))
              && (full in storage.fs && storage.fs[full].File? ==> r.value.model.names == None)
              && (full in storage.fs && storage.fs[full] == Dir ==>
                    r.value.model.names.Some? && SubdirListing(storage.fs, full, r.value.model.names.value)))
    {
      if "project" !in args {
        return Err("failed to get project from args");
      }
      var project := args["project"];
      var pth := ProjectPath(project);
      if !storage.Exists(pth) {
        return Ok(JsonResponse(404, Message("project '" + project + "' does not exist")));
      }
      var types := storage.ListFolders(pth);
      match types {
        case Err(e) => return Err(e);
        case Ok(names) => return Ok(JsonResponse(200, Names(names)));
      }
    }

    /** `listVersionHandler`: 404 naming the first of project and type that does not exist,
        otherwise 200 with the folders under the type. */
    method ListVersionHandler(args: Args) returns (r: Result<JsonResponse>)
      requires storage.Valid()
      ensures "project" !in args ==> r == Err("failed to get project from args")
      ensures "project" in args && "type" !in args ==> r == Err("failed to get type from args")
      ensures "project" in args && "type" in args ==>
        var project, idlType := args["project"], args["type"];
        && (!storage.Exists(ProjectPath(project)) ==>
              r == Ok(JsonResponse(404, Message("project '" + project + "' does not exist"))))
        && (storage.Exists(ProjectPath(project)) && !storage.Exists(TypePath(project, idlType)) ==>
              r == Ok(JsonResponse(404, Message("project '" + project + "' does not have type '" + idlType + "'"))))
        && (storage.Exists(ProjectPath(project)) && storage.Exists(TypePath(project, idlType)) ==>
              var full := storage.Resolved(TypePath(project, idlType));
              && r.Ok? && r.value.status == 200 && r.value.model.Names?
              && (full !in storage.fs ==> r.value.model.names == Some([]))
              && (full in storage.fs && storage.fs[full].File? ==> r.value.model.names == None)
              && (full in storage.fs && storage.fs[full] == Dir ==>
                    r.value.model.names.Some? && SubdirListing(storage.fs, full, r.value.model.names.value)))
    {
      if "project" !in args {
        return Err("failed to get project from args");
      }
      if "type" !in args {
        return Err("failed to get type from args");
      }
      var project, idlType := args["project"], args["type"];
      if !storage.Exists(ProjectPath(project)) {
        return Ok(JsonResponse(404, Message("project '" + project + "' does not exist")));
      }
      var pth := TypePath(project, idlType);
      if !storage.Exists(pth) {
        return Ok(JsonResponse(404, Message("project '" + project + "' does not have type '" + idlType + "'")));
      }
      var versions := storage.ListFolders(pth);
      match versions {
        case Err(e) => return Err(e);
        case Ok(names) => return Ok(JsonResponse(200, Names(names)));
      }
    }

    /** `pullVersion`: 404 naming the first of project, type and version that does not exist;
        otherwise the stored archive with 200, or the storage's error. */
    function PullVersion(args: Args): (r: Result<DataResponse>)
      reads storage
      requires storage.Valid()
      ensures "project" !in args ==> r == Err("failed to get project from args")
      ensures "project" in args && "type" !in args ==> r == Err("failed to get type from args")
      ensures "project" in args && "type" in args && "version" !in args ==>
        r == Err("failed to get version from args")
      ensures "project" in args && "type" in args && "version" in args ==>
        var project, idlType, version := args["project"], args["type"], args["version"];
        var projectFound := storage.Exists(ProjectPath(project));
        var typeFound := storage.Exists(TypePath(project, idlType));
        var versionFound := storage.Exists(VersionPath(project, idlType, version));
        var full := storage.Resolved(PayloadPath(project, idlType, version));
        && (!projectFound ==>
              r == Ok(DataResponse(404, None, "project '" + project + "' does not exist")))
        && (projectFound && !typeFound ==>
              r == Ok(DataResponse(404, None, "project '" + project + "' does not have type '" + idlType + "'")))
        && (projectFound && typeFound && !versionFound ==>
              r == Ok(DataResponse(404, None, "project '" + project + "' with type '" + idlType
                                              + "' does not have version '" + version + "'")))
        && (projectFound && typeFound && versionFound ==>
              && (r.Ok? <==> full in storage.fs)
              && (full !in storage.fs && !UnderFile(storage.fs, full) ==>
                    r == Err("'" + PayloadPath(project, idlType, version) + "' does not exist"))
              && (r.Ok? ==> r.value.status == 200 && r.value.data.Some? && r.value.error == ""
                            && (storage.fs[full].File? <==> !r.value.data.value.broken)
                            && (storage.fs[full].File? ==> storage.fs[full] == File(r.value.data.value.data))))
    {
      if "project" !in args then Err("failed to get project from args")
      else if "type" !in args then Err("failed to get type from args")
      else if "version" !in args then Err("failed to get version from args")
      else
        var project, idlType, version := args["project"], args["type"], args["version"];
        if !storage.Exists(ProjectPath(project)) then
          Ok(DataResponse(404, None, "project '" + project + "' does not exist"))
        else if !storage.Exists(TypePath(project, idlType)) then
          Ok(DataResponse(404, None, "project '" + project + "' does not have type '" + idlType + "'"))
        else if !storage.Exists(VersionPath(project, idlType, version)) then
          Ok(DataResponse(404, None, "project '" + project + "' with type '" + idlType
                                     + "' does not have version '" + version + "'"))
        else
          match storage.ReadFile(PayloadPath(project, idlType, version))
          case Err(e) => Err(e)
          case Ok(f) => Ok(DataResponse(200, Some(f), ""))
    }

    /** `submitVersion`: creates the version directory with its ancestors, then stores the
        request body as its archive, overwriting an earlier upload; 201 on success. With plain
        names a successful upload is served back unchanged by `PullVersion`. */
    method SubmitVersion(args: Args, body: Stream) returns (r: Result<JsonResponse>)
      requires storage.Valid()
      modifies storage
      ensures storage.Valid()
      ensures "project" !in args ==> r == Err("failed to get project from args") && storage.fs == old(storage.fs)
      ensures "project" in args && "type" !in args ==>
        r == Err("failed to get type from args") && storage.fs == old(storage.fs)
      ensures "project" in args && "type" in args && "version" !in args ==>
        r == Err("failed to get version from args") && storage.fs == old(storage.fs)
      ensures "project" in args && "type" in args && "version" in args ==>
        var project, idlType, version := args["project"], args["type"], args["version"];
        var dir := storage.Resolved(VersionPath(project, idlType, version));
        var full := storage.Resolved(PayloadPath(project, idlType, version));
        var made := MkdirAll(old(storage.fs), dir);
        && (made.Err? ==> r.Err? && storage.fs == old(storage.fs))
        && (made.Ok? && OpenForWrite(made.value, full, true).Err? ==> r.Err? && storage.fs == made.value)
        && (made.Ok? && OpenForWrite(made.value, full, true).Ok? && body.broken ==>
              r.Err? && storage.fs == made.value[full := File(body.data)])
        && (r.Ok? <==> made.Ok? && OpenForWrite(made.value, full, true).Ok? && !body.broken)
        && (r.Ok? ==> r.value == JsonResponse(201, NoModel) && storage.fs == made.value[full := File(body.data)])
        && (r.Ok? && IsSegment(project) && IsSegment(idlType) && IsSegment(version) ==>
              PullVersion(args) == Ok(DataResponse(200, Some(Stream(body.data, false)), "")))
    {
      if "project" !in args {
        return Err("failed to get project from args");
      }
      if "type" !in args {
        return Err("failed to get type from args");
      }
      if "version" !in args {
        return Err("failed to get version from args");
      }
      var project, idlType, version := args["project"], args["type"], args["version"];
      var pth := VersionPath(project, idlType, version);
      ghost var dir := storage.Resolved(pth);
      ghost var full := storage.Resolved(PayloadPath(project, idlType, version));
      ghost var before := storage.fs;
      var err := storage.MkDir(pth);
      if err.Some? {
        return Err(err.value);
      }
      ghost var made := storage.fs;
      err := storage.CreateFile(PayloadPath(project, idlType, version), body);
      if err.Some? {
        return Err(err.value);
      }
      r := Ok(JsonResponse(201, NoModel));
      if IsSegment(project) && IsSegment(idlType) && IsSegment(version) {
        ArtifactPathsResolve(storage.basePath, project, idlType, version);
        SubmittedIsServed(storage.basePath, before, project, idlType, version, body.data);
      }
    }
  }

  /** After MkdirAll of the version directory and a write of the archive below it, every
      level exists and the archive holds exactly the written bytes. */
  lemma SubmittedIsServed(base: Path, fs: FS, project: string, idlType: string, version: string,
                          data: seq<Byte>)
    requires IsClean(base) && FileSystem.Valid(fs)
    requires IsSegment(project) && IsSegment(idlType) && IsSegment(version)
    requires MkdirAll(fs, base + ["projects", project, idlType, version]).Ok?
    ensures var dir := base + ["projects", project, idlType, version];
      var after := MkdirAll(fs, dir).value[dir + [PayloadName] := File(data)];
      && base + ["projects", project] in after
      && base + ["projects", project, idlType] in after
      && dir in after
      && after[dir + [PayloadName]] == File(data)
  {
    var dir := base + ["projects", project, idlType, version];
    assert IsClean(dir);
    MkdirAllSpec(fs, dir);
    assert dir[..|base| + 2] == base + ["projects", project];
    assert dir[..|base| + 3] == base + ["projects", project, idlType];
    assert dir[..|dir|] == dir;
  }
}
