/** The data the sync engine works on: scanned files, the catalogue, policies, actions and plans. */
module SyncTypes {
  import opened Prelude

  /** A path relative to the watched directory, with forward slashes. */
  type Path = string

  /** The index of the last slash, or -1. */
  function LastSlash(p: Path): (i: int)
    ensures -1 <= i < |p|
    ensures i >= 0 ==> p[i] == '/'
    ensures forall k :: i < k < |p| ==> p[k] != '/'
  {
    if p == "" then -1
    else if p[|p| - 1] == '/' then |p| - 1
    else LastSlash(p[..|p| - 1])
  }

  /** A point in time. The engine only compares times. */
  type Time = int

  datatype ScannedItem = ScannedItem(
    size: nat, modified: Time, isDir: bool, checksum: Option<string>, permissions: Option<nat>)

  datatype FileState = FileState(
    size: nat, localModified: Time, remoteModified: Time,
    isDir: Option<bool>, checksum: Option<string>, permissions: Option<nat>)

  type Tree = map<Path, ScannedItem>
  type Catalogue = map<Path, FileState>

  datatype SyncMode = TwoWay | OneWay | OneWayNoDeletions {
    predicate SyncBoth() { TwoWay? }
    predicate SyncDeletions() { TwoWay? || OneWay? }
  }

  datatype ConflictPolicy = RenameLocal | RenameRemote | KeepNewer | KeepLocal | KeepRemote | Manual

  datatype Resolution =
    | UploadLocal
    | DownloadRemote
    | RenameLocalAndDownloadRemote(newLocal: Path)
    | RenameRemoteAndUploadLocal(newRemote: Path)
    | Skip

  function Resolve(policy: ConflictPolicy, p: Path, localTime: Time, remoteTime: Time): Resolution {
    match policy
    case RenameLocal => RenameLocalAndDownloadRemote(p + ".local-conflict")
    case RenameRemote => RenameRemoteAndUploadLocal(p + ".remote-conflict")
    case KeepNewer => if localTime > remoteTime then UploadLocal else DownloadRemote
    case KeepLocal => UploadLocal
    case KeepRemote => DownloadRemote
    case Manual => Skip
  }

  /** Local paths are written relative to the watched directory, as the catalogue update reads them back. */
  datatype SyncAction =
    | Upload(localPath: Path, remotePath: Path, size: nat)
    | Download(remotePath: Path, localPath: Path, size: nat, checksum: Option<string>, permissions: Option<nat>)
    | ServerSideMove(from: Path, to: Path)
    | ServerSideCopy(from: Path, to: Path)
    | DeleteLocal(localPath: Path)
    | DeleteRemote(remotePath: Path)
    | ArchiveToTrash(path: Path, isRemote: bool)
    | Conflict(relPath: Path, action: Resolution)
    | ConvergeState(relPath: Path, state: FileState)

  datatype Total = UploadBytes | DownloadBytes | Conflicts

  function Weight(t: Total, a: SyncAction): nat {
    match t
    case UploadBytes => if a.Upload? then a.size else 0
    case DownloadBytes => if a.Download? then a.size else 0
    case Conflicts => if a.Conflict? then 1 else 0
  }

  function Sum(t: Total, actions: seq<SyncAction>): nat {
    if actions == [] then 0
    else Sum(t, actions[..|actions| - 1]) + Weight(t, actions[|actions| - 1])
  }

  lemma SumSnoc(t: Total, actions: seq<SyncAction>, a: SyncAction)
    ensures Sum(t, actions + [a]) == Sum(t, actions) + Weight(t, a)
  {
    assert (actions + [a])[..|actions|] == actions;
  }

  /** The sum, clamped to what a 64-bit counter can hold. */
  function Clamped(t: Total, actions: seq<SyncAction>): nat {
    Min(Sum(t, actions), U64_MAX)
  }

  lemma ClampedSnoc(t: Total, actions: seq<SyncAction>, a: SyncAction)
    ensures Clamped(t, actions + [a]) == SaturatingAdd(Clamped(t, actions), Weight(t, a))
  {
    SumSnoc(t, actions, a);
  }

  function SaturatingAdd(a: nat, b: nat): nat {
    Min(a + b, U64_MAX)
  }

  /** A plan under construction. Its totals are 64-bit counters that saturate one addition at a time. */
  class SyncPlan {
    var actions: seq<SyncAction>
    var totalUploadBytes: nat
    var totalDownloadBytes: nat
    var conflictsCount: nat

    /** However the additions saturated, each total is the true sum clamped once. */
    ghost predicate Valid()
      reads this
    {
      && totalUploadBytes == Clamped(UploadBytes, actions)
      && totalDownloadBytes == Clamped(DownloadBytes, actions)
      && conflictsCount == Clamped(Conflicts, actions)
    }

    constructor ()
      ensures Valid() && actions == []
    {
      actions := [];
      totalUploadBytes, totalDownloadBytes, conflictsCount := 0, 0, 0;
    }

    method AddAction(action: SyncAction)
      requires Valid()
      modifies this
      ensures Valid() && actions == old(actions) + [action]
    {
      ClampedSnoc(UploadBytes, actions, action);
      ClampedSnoc(DownloadBytes, actions, action);
      ClampedSnoc(Conflicts, actions, action);
      if action.Upload? {
        totalUploadBytes := SaturatingAdd(totalUploadBytes, action.size);
      } else if action.Download? {
        totalDownloadBytes := SaturatingAdd(totalDownloadBytes, action.size);
      } else if action.Conflict? {
        conflictsCount := SaturatingAdd(conflictsCount, 1);
      }
      actions := actions + [action];
    }
  }
}
