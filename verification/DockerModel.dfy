/**
 The Docker daemon as dcx sees it: an abstract state, and an object whose
 operations either have their effect or fail without one.  Container IDs are
 numbers handed out once.  A reliable daemon does everything that can be done; some
 containers may be stuck, that is, cannot be removed.
 */
module DockerModel {
  import opened Wrappers
  import opened Metadata

  datatype MountPoint = MountPoint(isVolume: bool, name: string)

  datatype Container = Container(labels: map<string, string>, running: bool, mounts: seq<MountPoint>, image: string)

  datatype Image = Image(labels: map<string, string>, tags: seq<string>, metadata: Label)

  /** One command executed in a container, and whether it succeeded. */
  datatype ExecEvent = ExecEvent(container: nat, stage: Stage, argv: seq<string>, workdir: string, ok: bool)

  datatype State = State(
    containers: map<nat, Container>,
    next: nat,
    volumes: set<string>,
    images: map<string, Image>,
    log: seq<ExecEvent>)
  {
    /** IDs are handed out in order. */
    ghost predicate Valid() {
      forall id :: id in containers ==> id < next
    }

    predicate Running(id: nat) {
      id in containers && containers[id].running
    }

    function WithRunning(id: nat, running: bool): State
      requires id in containers
    {
      this.(containers := containers[id := containers[id].(running := running)])
    }
  }

  /** `container.Summary`: what a listing says about a container at that moment. */
  datatype Summary = Summary(id: nat, container: Container)

  datatype DockerError = NotFound | Refused

  predicate IsVolume(m: MountPoint, name: string) {
    m.isVolume && m.name == name && name != ""
  }

  /** One of the containers `ids` mounts the named volume. */
  predicate Mounted(s: State, ids: set<nat>, name: string) {
    exists id, k :: id in ids && id in s.containers && 0 <= k < |s.containers[id].mounts| && IsVolume(s.containers[id].mounts[k], name)
  }

  /** Some container uses the volume, so that it cannot be removed. */
  predicate VolumeInUse(s: State, name: string) {
    Mounted(s, s.containers.Keys, name)
  }

  predicate ImageInUse(s: State, ref: string) {
    exists id :: id in s.containers && s.containers[id].image == ref
  }

  predicate HasLabel(labels: map<string, string>, key: string, value: string) {
    key in labels && labels[key] == value
  }

  ghost function Labelled(s: State, key: string, value: string): set<nat> {
    set id | id in s.containers && HasLabel(s.containers[id].labels, key, value)
  }

  /** A listing names each container of `ids` once, as it is. */
  ghost predicate Lists(s: State, ids: set<nat>, items: seq<Summary>) {
    && (forall i :: 0 <= i < |items| ==>
          items[i].id in ids && items[i].id in s.containers && items[i].container == s.containers[items[i].id])
    && (forall i, j :: 0 <= i < j < |items| ==> items[i].id != items[j].id)
    && (forall id :: id in ids ==> exists i :: 0 <= i < |items| && items[i].id == id)
  }

  class Daemon {
    const reliable: bool
    const stuck: set<nat>
    var st: State

    constructor (s: State, reliable: bool, stuck: set<nat>)
      ensures st == s && this.reliable == reliable && this.stuck == stuck
    {
      st := s;
      this.reliable, this.stuck := reliable, stuck;
    }

    /** Nothing keeps the containers `ids` from being removed. */
    predicate CanRemove(ids: set<nat>) {
      reliable && stuck !! ids
    }

    /** `ContainerList` with a label filter, running or not; the order is the daemon's. */
    method ContainerList(key: string, value: string) returns (r: Result<seq<Summary>, DockerError>)
      ensures r.Success? ==> Lists(st, Labelled(st, key, value), r.value)
      ensures reliable ==> r.Success?
    {
      var fail: bool := *;
      if fail && !reliable {
        return Failure(Refused);
      }
      var items: seq<Summary> := [];
      var ids := st.containers.Keys;
      while ids != {}
        invariant ids <= st.containers.Keys
        invariant Lists(st, Labelled(st, key, value) - ids, items)
        decreases |ids|
      {
        var id :| id in ids;
        if HasLabel(st.containers[id].labels, key, value) {
          ListsMore(st, Labelled(st, key, value) - ids, items, id);
          assert Labelled(st, key, value) - (ids - {id}) == Labelled(st, key, value) - ids + {id};
          items := items + [Summary(id, st.containers[id])];
        } else {
          assert Labelled(st, key, value) - (ids - {id}) == Labelled(st, key, value) - ids;
        }
        ids := ids - {id};
      }
      assert Labelled(st, key, value) - ids == Labelled(st, key, value);
      return Success(items);
    }

    /** `ContainerInspect`, as far as the image is concerned. */
    method ContainerInspect(id: nat) returns (r: Result<string, DockerError>)
      ensures r.Success? ==> id in st.containers && r.value == st.containers[id].image
      ensures r == Failure(NotFound) ==> id !in st.containers
      ensures reliable && id in st.containers ==> r.Success?
    {
      var fail: bool := *;
      if id !in st.containers { return Failure(NotFound); }
      if fail && !reliable { return Failure(Refused); }
      return Success(st.containers[id].image);
    }

    /** `ContainerStop`; stopping a stopped container is no error. */
    method ContainerStop(id: nat) returns (r: Result<(), DockerError>)
      modifies this
      ensures r.Success? ==> id in old(st).containers && st == old(st).WithRunning(id, false)
      ensures r.Failure? ==> st == old(st)
      ensures r == Failure(NotFound) ==> id !in st.containers
      ensures reliable && id in old(st).containers ==> r.Success?
    {
      var fail: bool := *;
      if id !in st.containers { return Failure(NotFound); }
      if fail && !reliable { return Failure(Refused); }
      st := st.WithRunning(id, false);
      return Success(());
    }

    /** `ContainerRemove` without force: a running container is refused. */
    method ContainerRemove(id: nat) returns (r: Result<(), DockerError>)
      modifies this
      ensures r.Success? ==> id in old(st).containers && st == old(st).(containers := old(st).containers - {id})
      ensures r.Failure? ==> st == old(st)
      ensures r == Failure(NotFound) ==> id !in st.containers
      ensures reliable && id in old(st).containers && !old(st).Running(id) && id !in stuck ==> r.Success?
      ensures id in stuck ==> r.Failure?
    {
      var fail: bool := *;
      if id !in st.containers { return Failure(NotFound); }
      if (fail && !reliable) || id in stuck || st.containers[id].running { return Failure(Refused); }
      st := st.(containers := st.containers - {id});
      return Success(());
    }

    /** `docker create`: the new container is not running. */
    method ContainerCreate(labels: map<string, string>, mounts: seq<MountPoint>, image: string) returns (r: Result<nat, DockerError>)
      modifies this
      ensures r.Success? ==>
                && r.value == old(st).next
                && st == old(st).(containers := old(st).containers[r.value := Container(labels, false, mounts, image)], next := r.value + 1)
      ensures r.Failure? ==> st == old(st)
      ensures reliable ==> r.Success?
    {
      var fail: bool := *;
      if fail && !reliable { return Failure(Refused); }
      var id := st.next;
      st := st.(containers := st.containers[id := Container(labels, false, mounts, image)], next := id + 1);
      return Success(id);
    }

    /** `docker start`; the main process may have ended again at once. */
    method ContainerStart(id: nat) returns (r: Result<(), DockerError>)
      modifies this
      ensures r.Success? ==> id in old(st).containers && exists running :: st == old(st).WithRunning(id, running)
      ensures r.Failure? ==> st == old(st)
      ensures reliable && id in old(st).containers ==> r.Success? && st.Running(id)
    {
      var fail: bool, running: bool := *, *;
      if id !in st.containers { return Failure(NotFound); }
      if fail && !reliable { return Failure(Refused); }
      st := st.WithRunning(id, running || reliable);
      return Success(());
    }

    /** `WaitForContainerRunning`: success means the container was seen running. */
    method WaitForRunning(id: nat) returns (r: Result<(), DockerError>)
      ensures r.Success? ==> st.Running(id)
      ensures reliable && st.Running(id) ==> r.Success?
    {
      var fail: bool := *;
      if (fail && !reliable) || !st.Running(id) { return Failure(Refused); }
      return Success(());
    }

    /** `docker exec`: runs a command, which may fail. */
    method Exec(id: nat, stage: Stage, workdir: string, argv: seq<string>) returns (ok: bool)
      modifies this
      ensures st == old(st).(log := old(st).log + [ExecEvent(id, stage, argv, workdir, ok)])
    {
      ok := *;
      st := st.(log := st.log + [ExecEvent(id, stage, argv, workdir, ok)]);
    }

    /** `VolumeRemove`; a volume in use is refused. */
    method VolumeRemove(name: string) returns (ok: bool)
      modifies this
      ensures st == if ok then old(st).(volumes := old(st).volumes - {name}) else old(st)
      ensures ok ==> !VolumeInUse(old(st), name)
      ensures reliable && !VolumeInUse(old(st), name) ==> ok
    {
      var fail: bool := *;
      ok := !VolumeInUse(st, name) && (reliable || !fail);
      if ok { st := st.(volumes := st.volumes - {name}); }
    }

    /** `ImageRemove`, by ID or by tag; an image in use is refused. */
    method ImageRemove(ref: string) returns (ok: bool)
      modifies this
      ensures st == if ok then old(st).(images := old(st).images - {ref}) else old(st)
      ensures ok ==> !ImageInUse(old(st), ref)
      ensures reliable && !ImageInUse(old(st), ref) ==> ok
    {
      var fail: bool := *;
      ok := !ImageInUse(st, ref) && (reliable || !fail);
      if ok { st := st.(images := st.images - {ref}); }
    }

    /** `ImageList` with a label filter. */
    method ImageList(key: string, value: string) returns (r: Result<seq<Image>, DockerError>)
      ensures r.Success? ==> forall i :: 0 <= i < |r.value| ==> r.value[i] in st.images.Values && HasLabel(r.value[i].labels, key, value)
      ensures r.Success? ==> forall ref :: ref in st.images && HasLabel(st.images[ref].labels, key, value) ==> st.images[ref] in r.value
      ensures reliable ==> r.Success?
    {
      var fail: bool := *;
      if fail && !reliable { return Failure(Refused); }
      var items: seq<Image> := [];
      var refs := st.images.Keys;
      while refs != {}
        invariant refs <= st.images.Keys
        invariant forall i :: 0 <= i < |items| ==> items[i] in st.images.Values && HasLabel(items[i].labels, key, value)
        invariant forall ref :: ref in st.images && ref !in refs && HasLabel(st.images[ref].labels, key, value) ==> st.images[ref] in items
        decreases |refs|
      {
        var ref :| ref in refs;
        if HasLabel(st.images[ref].labels, key, value) { items := items + [st.images[ref]]; }
        refs := refs - {ref};
      }
      return Success(items);
    }

    /** `ImageInspect`, as far as the metadata label is concerned. */
    method ImageInspect(ref: string) returns (r: Result<Label, DockerError>)
      ensures r.Success? ==> ref in st.images && r.value == st.images[ref].metadata
      ensures reliable && ref in st.images ==> r.Success?
    {
      var fail: bool := *;
      if ref !in st.images { return Failure(NotFound); }
      if fail && !reliable { return Failure(Refused); }
      return Success(st.images[ref].metadata);
    }
  }

  lemma ListsMore(s: State, ids: set<nat>, items: seq<Summary>, id: nat)
    requires Lists(s, ids, items) && id in s.containers && id !in ids
    ensures Lists(s, ids + {id}, items + [Summary(id, s.containers[id])])
  {
    var more := items + [Summary(id, s.containers[id])];
    forall k | k in ids + {id} ensures exists i :: 0 <= i < |more| && more[i].id == k {
      if k == id {
        assert more[|items|].id == k;
      } else {
        var i :| 0 <= i < |items| && items[i].id == k;
        assert more[i].id == k;
      }
    }
  }
}
