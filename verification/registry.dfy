/** The service index built from compiled proto files, reduced to names: services by
    fully qualified name, each with its methods in declaration order. */
module Registry {
  import opened Wrappers
  import Text

  /** A method and the full names of its request and response messages. */
  datatype Method = Method(name: string, inputType: string, outputType: string)

  datatype Service = Service(fullName: string, methods: seq<Method>)

  /** A compiled proto file, as far as the index sees it: its services in order. */
  datatype ProtoFile = ProtoFile(path: string, services: seq<Service>)

  /** `Registry`: the files added so far and the services indexed by full name. */
  datatype Registry = Registry(files: seq<ProtoFile>, services: map<string, Service>)

  /** What `ListServices` reports per service. */
  datatype ServiceInfo = ServiceInfo(fullName: string, methods: seq<Method>)

  /** `NewRegistry`: no files and no services. */
  function NewRegistry(): (r: Registry)
    ensures |r.files| == 0 && |r.services| == 0
  {
    Registry([], map[])
  }

  /** The loop of `AddFile`: each service in turn is stored under its full name. */
  function IndexServices(m: map<string, Service>, svcs: seq<Service>): map<string, Service>
    decreases |svcs|
  {
    if |svcs| == 0 then m else IndexServices(m[svcs[0].fullName := svcs[0]], svcs[1..])
  }

  /** `AddFile`: append the file and index its services. */
  function AddFile(r: Registry, f: ProtoFile): Registry {
    Registry(r.files + [f], IndexServices(r.services, f.services))
  }

  /** A reference for the index: the last service named `name` in `svcs`, if any. */
  function LastNamed(svcs: seq<Service>, name: string): (r: Option<Service>)
    ensures r.Some? ==> r.value in svcs && r.value.fullName == name
    ensures r.None? <==> forall i :: 0 <= i < |svcs| ==> svcs[i].fullName != name
    decreases |svcs|
  {
    if |svcs| == 0 then None
    else if svcs[|svcs| - 1].fullName == name then Some(svcs[|svcs| - 1])
    else LastNamed(svcs[..|svcs| - 1], name)
  }

  /** The index after a loop over `svcs`: a name the loop saw maps to the last service
      with that name, every other name keeps what it had. */
  lemma {:induction false} IndexServicesLast(m: map<string, Service>, svcs: seq<Service>, name: string)
    ensures name in IndexServices(m, svcs) <==> name in m || LastNamed(svcs, name).Some?
    ensures LastNamed(svcs, name).Some? ==> IndexServices(m, svcs)[name] == LastNamed(svcs, name).value
    ensures LastNamed(svcs, name).None? && name in m ==> IndexServices(m, svcs)[name] == m[name]
    decreases |svcs|
  {
    if |svcs| > 0 {
      var m' := m[svcs[0].fullName := svcs[0]];
      IndexServicesLast(m', svcs[1..], name);
      LastNamedCons(svcs, name);
    }
  }

  /** `LastNamed` seen from the front: the tail's answer wins, else the head's. */
  lemma {:induction false} LastNamedCons(svcs: seq<Service>, name: string)
    requires |svcs| > 0
    ensures LastNamed(svcs, name) ==
      if LastNamed(svcs[1..], name).Some? then LastNamed(svcs[1..], name)
      else if svcs[0].fullName == name then Some(svcs[0])
      else None
    decreases |svcs|
  {
    var n := |svcs|;
    if n > 1 {
      assert svcs[1..][..n - 2] == svcs[..n - 1][1..];
      assert svcs[1..][n - 2] == svcs[n - 1];
      if svcs[n - 1].fullName != name {
        LastNamedCons(svcs[..n - 1], name);
      }
    } else {
      assert svcs[..0] == [];
    }
  }

  /** All services of `files`, file by file, in declaration order. */
  function AllServices(files: seq<ProtoFile>): seq<Service>
    decreases |files|
  {
    if |files| == 0 then [] else AllServices(files[..|files| - 1]) + files[|files| - 1].services
  }

  /** The registry the loader builds by adding `files` one after another. */
  function Build(files: seq<ProtoFile>): Registry
    decreases |files|
  {
    if |files| == 0 then NewRegistry() else AddFile(Build(files[..|files| - 1]), files[|files| - 1])
  }

  /** `FindService`: the indexed service, or `service not found: <name>`. */
  function FindService(r: Registry, name: string): (res: Result<Service, string>)
    ensures res.Ok? <==> name in r.services
    ensures res.Ok? ==> res.value == r.services[name]
    ensures res.Err? ==> res.error == "service not found: " + name
  {
    if name in r.services then Ok(r.services[name]) else Err("service not found: " + name)
  }

  /** Whatever order the files come in, a service is found exactly when some file declares
      it, and the one found is the last declaration of that name. */
  lemma {:induction false} BuildFinds(files: seq<ProtoFile>, name: string)
    ensures FindService(Build(files), name).Ok? <==> LastNamed(AllServices(files), name).Some?
    ensures FindService(Build(files), name).Ok? ==>
      FindService(Build(files), name).value == LastNamed(AllServices(files), name).value
    ensures Build(files).files == files
    decreases |files|
  {
    if |files| > 0 {
      var init := files[..|files| - 1];
      var f := files[|files| - 1];
      BuildFinds(init, name);
      IndexServicesLast(Build(init).services, f.services, name);
      LastNamedAppend(AllServices(init), f.services, name);
      assert init + [f] == files;
    }
  }

  /** The last declaration in `a + b` is the last one in `b`, or else the last in `a`. */
  lemma {:induction false} LastNamedAppend(a: seq<Service>, b: seq<Service>, name: string)
    ensures LastNamed(a + b, name) == if LastNamed(b, name).Some? then LastNamed(b, name) else LastNamed(a, name)
    decreases |b|
  {
    if |b| == 0 {
      assert a + b == a;
    } else {
      var n := |b|;
      assert (a + b)[..|a + b| - 1] == a + b[..n - 1];
      assert (a + b)[|a + b| - 1] == b[n - 1];
      if b[n - 1].fullName != name {
        LastNamedAppend(a, b[..n - 1], name);
      }
    }
  }

  /** Every service is indexed under its own full name. */
  predicate Keyed(r: Registry) {
    forall name :: name in r.services ==> r.services[name].fullName == name
  }

  /** Indexing keeps every service under its own name. */
  lemma {:induction false} IndexServicesKeyed(m: map<string, Service>, svcs: seq<Service>)
    requires forall name :: name in m ==> m[name].fullName == name
    ensures forall name :: name in IndexServices(m, svcs) ==> IndexServices(m, svcs)[name].fullName == name
    decreases |svcs|
  {
    if |svcs| > 0 {
      IndexServicesKeyed(m[svcs[0].fullName := svcs[0]], svcs[1..]);
    }
  }

  /** A registry built by `NewRegistry` and `AddFile` is keyed by full name. */
  lemma {:induction false} BuildKeyed(files: seq<ProtoFile>)
    ensures Keyed(Build(files))
    decreases |files|
  {
    if |files| > 0 {
      BuildKeyed(files[..|files| - 1]);
      IndexServicesKeyed(Build(files[..|files| - 1]).services, files[|files| - 1].services);
    }
  }

  /** The position of the first method called `name`, if any. */
  function FirstMethod(methods: seq<Method>, name: string): (r: Option<nat>)
    ensures r.Some? ==> r.value < |methods| && methods[r.value].name == name
    ensures r.Some? ==> forall j :: 0 <= j < r.value ==> methods[j].name != name
    ensures r.None? <==> forall j :: 0 <= j < |methods| ==> methods[j].name != name
    decreases |methods|
  {
    if |methods| == 0 then None
    else if methods[0].name == name then Some(0)
    else match FirstMethod(methods[1..], name)
      case None => None
      case Some(i) => Some(i + 1)
  }

  /** The method names, in declaration order. */
  function Names(methods: seq<Method>): (r: seq<string>)
    ensures |r| == |methods| && forall i :: 0 <= i < |r| ==> r[i] == methods[i].name
  {
    seq(|methods|, i requires 0 <= i < |methods| => methods[i].name)
  }

  /** `FindMethod`: the service error passes through; otherwise the first method with the
      name, or an error naming it and listing what is available. */
  function FindMethod(r: Registry, serviceName: string, methodName: string): (res: Result<Method, string>)
    ensures serviceName !in r.services ==> res == Err("service not found: " + serviceName)
    ensures serviceName in r.services ==>
      var ms := r.services[serviceName].methods;
      && (res.Ok? <==> exists j :: 0 <= j < |ms| && ms[j].name == methodName)
      && (res.Ok? ==> exists j :: 0 <= j < |ms| && ms[j] == res.value && ms[j].name == methodName
                                 && forall k :: 0 <= k < j ==> ms[k].name != methodName)
      && (res.Err? ==>
            res.error == "method " + Text.Quote(methodName) + " not found in service " + serviceName
                           + ". Available methods: " + Text.Join(Names(ms), ", "))
  {
    match FindService(r, serviceName)
    case Err(e) => Err(e)
    case Ok(svc) =>
      match FirstMethod(svc.methods, methodName)
      case Some(i) => Ok(svc.methods[i])
      case None =>
        Err("method " + Text.Quote(methodName) + " not found in service " + serviceName
          + ". Available methods: " + Text.Join(Names(svc.methods), ", "))
  }

  /** `keys` lists every indexed name exactly once: one possible map iteration order. */
  predicate Lists(order: seq<string>, keys: set<string>) {
    && (forall i, j :: 0 <= i < j < |order| ==> order[i] != order[j])
    && (forall k :: k in keys ==> k in order)
    && (forall i :: 0 <= i < |order| ==> order[i] in keys)
  }

  /** `ListServices`, visiting the index in `order`: one entry per indexed service, with
      its methods in declaration order. */
  function ListServices(r: Registry, order: seq<string>): (infos: seq<ServiceInfo>)
    requires Lists(order, r.services.Keys)
    ensures |infos| == |order|
    ensures forall i :: 0 <= i < |infos| ==>
      infos[i].fullName in r.services && infos[i].methods == r.services[infos[i].fullName].methods
    ensures forall name :: name in r.services ==> exists i :: 0 <= i < |infos| && infos[i].fullName == name
    ensures forall i, j :: 0 <= i < j < |infos| ==> infos[i].fullName != infos[j].fullName
  {
    var infos := seq(|order|, i requires 0 <= i < |order| => ServiceInfo(order[i], r.services[order[i]].methods));
    assert forall name :: name in r.services ==> exists i :: 0 <= i < |infos| && infos[i].fullName == name by {
      forall name | name in r.services
        ensures exists i :: 0 <= i < |infos| && infos[i].fullName == name
      {
        var i :| 0 <= i < |order| && order[i] == name;
        assert infos[i].fullName == name;
      }
    }
    infos
  }

  /** Every listing has one entry per service: its length is the number of indexed names. */
  lemma {:induction false} ListsCount(order: seq<string>, keys: set<string>)
    requires Lists(order, keys)
    ensures |order| == |keys|
    decreases |order|
  {
    if |order| > 0 {
      var last := order[|order| - 1];
      var init := order[..|order| - 1];
      assert forall k :: k in keys - {last} ==> k in init by {
        forall k | k in keys - {last} ensures k in init {
          var i :| 0 <= i < |order| && order[i] == k;
          assert i < |order| - 1;
          assert init[i] == k;
        }
      }
      ListsCount(init, keys - {last});
    } else {
      assert forall k :: k !in keys;
    }
  }
}
