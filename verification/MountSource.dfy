/** Telling the module's mount layers from the system's, from src/module_mount_source.rs. */
module MountSource {
  import opened Paths
  import opened Text

  const REAL_STORAGE_TMP_PREFIX: string := "/data/adb/modules/storage.redirect.x/tmp/real_storage/"

  predicate IsModuleMountSource(source: string) {
    "srx_fuse_redirect" <= source || "srx_fuse_host" <= source
  }

  predicate IsModuleAnchor(path: string) {
    REAL_STORAGE_TMP_PREFIX <= path
  }

  /** `contains` */
  predicate Contains(s: string, part: string) {
    exists i :: 0 <= i <= |s| && part <= s[i..]
  }

  datatype Kind = Data | Media | Obb

  function PrivatePrefix(kind: Kind): string {
    match kind case Data => "Android/data/" case Media => "Android/media/" case Obb => "Android/obb/"
  }

  /** `is_module_sandbox_root` */
  predicate IsModuleSandboxRoot(root: string, packageName: string) {
    packageName != "" && exists kind :: Contains(root, PrivatePrefix(kind) + packageName + "/sdcard")
  }

  function WithoutMedia(root: string): string {
    match StripPrefix(root, "/media") case Some(rest) => rest case None => root
  }

  /** `storage_root_tail`: the user and the path below the user's storage root. */
  function StorageRootTail(root: string): Option<(string, string)> {
    match StripPrefix(WithoutMedia(root), "/")
    case None => None
    case Some(rest) =>
      var (user, tail) := match SplitOnce(rest, '/') case Some(parts) => parts case None => (rest, "");
      if AllDigits(user) then Some((user, tail)) else None
  }

  predicate IsPrivateName(tail: string, kind: Kind) {
    match StripPrefix(tail, PrivatePrefix(kind))
    case None => false
    case Some(name) => name != "" && '/' !in name
  }

  /** `root_is_app_private_directory` */
  predicate RootIsAppPrivateDirectory(root: string) {
    match StorageRootTail(root)
    case None => false
    case Some((_, tail)) => exists kind :: IsPrivateName(tail, kind)
  }

  predicate RootIsEmulatedStorageView(root: string) {
    match StorageRootTail(root)
    case None => false
    case Some((_, tail)) => tail != ""
  }

  /** `is_module_redirect_mount` */
  predicate IsModuleRedirectMount(source: string, root: string, target: string, packageName: string) {
    if IsModuleMountSource(source) || IsModuleAnchor(source) || IsModuleAnchor(target) then true
    else if RootIsAppPrivateDirectory(root) then false
    else IsModuleSandboxRoot(root, packageName) || RootIsEmulatedStorageView(root)
  }

  // ----- the two shapes -----

  /** A path below a user's storage root, through the FUSE view or through the data partition. */
  function StorageRoot(viaData: bool, user: string, tail: string): string {
    (if viaData then "/media" else "") + ("/" + (user + ['/'] + tail))
  }

  lemma TailOfStorageRoot(viaData: bool, user: string, tail: string)
    requires AllDigits(user)
    ensures StorageRootTail(StorageRoot(viaData, user, tail)) == Some((user, tail))
  {
    var rest := user + ['/'] + tail;
    var root := StorageRoot(viaData, user, tail);
    if viaData {
      StripOwnPrefix("/media", "/" + rest);
    } else {
      assert root == "/" + rest;
      assert root[1] == user[0] && IsDigit(user[0]) && "/media"[1] == 'm';
    }
    assert WithoutMedia(root) == "/" + rest;
    StripOwnPrefix("/", rest);
    assert forall i :: 0 <= i < |user| ==> IsDigit(user[i]);
    SplitOnceOfConcat(user, '/', tail);
  }

  /** The system's view of an app's own directory is recognised in both spellings, and is never taken
      for a module layer unless its source or target names the module. */
  lemma SystemViewShape(viaData: bool, user: string, kind: Kind, name: string, source: string, target: string, packageName: string)
    requires AllDigits(user) && name != "" && '/' !in name
    ensures var root := StorageRoot(viaData, user, PrivatePrefix(kind) + name);
            && RootIsAppPrivateDirectory(root)
            && (IsModuleRedirectMount(source, root, target, packageName) <==>
                IsModuleMountSource(source) || IsModuleAnchor(source) || IsModuleAnchor(target))
  {
    TailOfStorageRoot(viaData, user, PrivatePrefix(kind) + name);
    StripOwnPrefix(PrivatePrefix(kind), name);
    assert IsPrivateName(PrivatePrefix(kind) + name, kind);
  }

  lemma OnlyOneKind(tail: string, a: Kind, b: Kind)
    requires PrivatePrefix(a) <= tail && PrivatePrefix(b) <= tail
    ensures a == b
  {
    assert tail[8] == PrivatePrefix(a)[8] && tail[8] == PrivatePrefix(b)[8];
  }

  /** Anything deeper than an app's own directory, such as a sandbox, is a module layer. */
  lemma DeeperShape(viaData: bool, user: string, kind: Kind, name: string, below: string,
                    source: string, target: string, packageName: string)
    requires AllDigits(user)
    ensures IsModuleRedirectMount(source, StorageRoot(viaData, user, PrivatePrefix(kind) + (name + ['/'] + below)),
                                  target, packageName)
  {
    var rest := name + ['/'] + below;
    var tail := PrivatePrefix(kind) + rest;
    TailOfStorageRoot(viaData, user, tail);
    forall other
      ensures !IsPrivateName(tail, other)
    {
      if PrivatePrefix(other) <= tail {
        OnlyOneKind(tail, kind, other);
        StripOwnPrefix(PrivatePrefix(kind), rest);
        assert rest[|name|] == '/';
      }
    }
  }

  // ----- every root, read from its text -----

  /** `root` is a path below the storage of `user`, in one of the two spellings. */
  ghost predicate LiesIn(root: string, user: string, tail: string) {
    AllDigits(user) && (root == StorageRoot(false, user, tail) || root == StorageRoot(true, user, tail))
  }

  lemma WithoutMediaOf(root: string)
    ensures WithoutMedia(root) == root || root == "/media" + WithoutMedia(root)
  {
  }

  lemma SplitOnceParts(s: string, c: char)
    ensures SplitOnce(s, c).Some? ==> var (a, b) := SplitOnce(s, c).value; s == a + [c] + b
  {
  }

  lemma TailWhence(root: string, user: string, tail: string)
    requires tail != "" && StorageRootTail(root) == Some((user, tail))
    ensures LiesIn(root, user, tail)
  {
    WithoutMediaOf(root);
    var rest := WithoutMedia(root)[1..];
    SplitOnceParts(rest, '/');
    assert WithoutMedia(root) == "/" + rest;
    assert rest == user + ['/'] + tail;
  }

  lemma TailIff(root: string, user: string, tail: string)
    requires tail != ""
    ensures StorageRootTail(root) == Some((user, tail)) <==> LiesIn(root, user, tail)
  {
    if StorageRootTail(root) == Some((user, tail)) {
      TailWhence(root, user, tail);
    }
    if LiesIn(root, user, tail) {
      TailOfStorageRoot(false, user, tail);
      TailOfStorageRoot(true, user, tail);
    }
  }

  /** The directories that hold one directory per app. */
  ghost predicate HoldsApps(dir: string) {
    dir == "Android/data/" || dir == "Android/media/" || dir == "Android/obb/"
  }

  lemma HoldsAppsIff(dir: string)
    ensures HoldsApps(dir) <==> exists kind :: dir == PrivatePrefix(kind)
  {
    assert PrivatePrefix(Data) == "Android/data/" && PrivatePrefix(Media) == "Android/media/" && PrivatePrefix(Obb) == "Android/obb/";
  }

  /** `root` is an app's own directory in the storage of `user`, no deeper. */
  ghost predicate AppDirectory(root: string, user: string, dir: string, name: string) {
    HoldsApps(dir) && name != "" && '/' !in name && LiesIn(root, user, dir + name)
  }

  lemma PrivateWhence(root: string) returns (user: string, dir: string, name: string)
    requires RootIsAppPrivateDirectory(root)
    ensures AppDirectory(root, user, dir, name)
  {
    var tail := StorageRootTail(root).value.1;
    user := StorageRootTail(root).value.0;
    var kind :| IsPrivateName(tail, kind);
    dir, name := NameIn(tail, kind);
    TailIff(root, user, tail);
  }

  lemma NameIn(tail: string, kind: Kind) returns (dir: string, name: string)
    requires IsPrivateName(tail, kind)
    ensures HoldsApps(dir) && name != "" && '/' !in name && tail == dir + name && tail != ""
  {
    dir, name := PrivatePrefix(kind), StripPrefix(tail, PrivatePrefix(kind)).value;
    HoldsAppsIff(dir);
  }

  lemma PrivateThere(root: string, user: string, dir: string, name: string)
    requires AppDirectory(root, user, dir, name)
    ensures RootIsAppPrivateDirectory(root)
  {
    HoldsAppsIff(dir);
    var kind :| dir == PrivatePrefix(kind);
    assert dir + name != "";
    TailIff(root, user, dir + name);
    StripOwnPrefix(dir, name);
    assert IsPrivateName(dir + name, kind);
  }

  /** These are the roots that are taken for the system's view of an app's own directory. */
  lemma PrivateIff(root: string)
    ensures RootIsAppPrivateDirectory(root) <==> exists user, dir, name :: AppDirectory(root, user, dir, name)
  {
    if RootIsAppPrivateDirectory(root) {
      var user, dir, name := PrivateWhence(root);
    }
    if user, dir, name :| AppDirectory(root, user, dir, name) {
      PrivateThere(root, user, dir, name);
    }
  }

  lemma ContainsIff(s: string, part: string)
    ensures Contains(s, part) <==> exists front, back :: s == front + (part + back)
  {
    if Contains(s, part) {
      var i :| 0 <= i <= |s| && part <= s[i..];
      assert s == s[..i] + (part + s[i..][|part|..]);
    }
    if front, back :| s == front + (part + back) {
      assert s[|front|..] == part + back;
    }
  }

  /** The sandbox of the package stands somewhere in the root. */
  ghost predicate Sandboxed(root: string, packageName: string, dir: string, front: string, back: string) {
    HoldsApps(dir) && root == front + (dir + packageName + "/sdcard" + back)
  }

  lemma SandboxIff(root: string, packageName: string)
    ensures IsModuleSandboxRoot(root, packageName) <==>
            packageName != "" && exists dir, front, back :: Sandboxed(root, packageName, dir, front, back)
  {
    if IsModuleSandboxRoot(root, packageName) {
      var kind :| Contains(root, PrivatePrefix(kind) + packageName + "/sdcard");
      var dir := PrivatePrefix(kind);
      HoldsAppsIff(dir);
      ContainsIff(root, dir + packageName + "/sdcard");
      var front, back :| root == front + (dir + packageName + "/sdcard" + back);
      assert Sandboxed(root, packageName, dir, front, back);
    }
    if dir, front, back :| packageName != "" && Sandboxed(root, packageName, dir, front, back) {
      HoldsAppsIff(dir);
      ContainsIff(root, dir + packageName + "/sdcard");
    }
  }

  ghost predicate NamesModule(source: string, target: string) {
    || "srx_fuse_redirect" <= source || "srx_fuse_host" <= source
    || "/data/adb/modules/storage.redirect.x/tmp/real_storage/" <= source
    || "/data/adb/modules/storage.redirect.x/tmp/real_storage/" <= target
  }

  ghost predicate InStorage(root: string, user: string, tail: string) {
    tail != "" && LiesIn(root, user, tail)
  }

  lemma StorageViewIff(root: string)
    ensures RootIsEmulatedStorageView(root) <==> exists user, tail :: InStorage(root, user, tail)
  {
    if RootIsEmulatedStorageView(root) {
      var (user, tail) := StorageRootTail(root).value;
      TailIff(root, user, tail);
      assert InStorage(root, user, tail);
    }
    if user, tail :| InStorage(root, user, tail) {
      TailIff(root, user, tail);
    }
  }

  /** Which layers are the module's, read from their texts alone: those whose source or target names it,
      and of the others those with a root in the package's sandbox or inside a user's storage, except
      the app's own directories. */
  lemma RedirectMountIff(source: string, root: string, target: string, packageName: string)
    ensures IsModuleRedirectMount(source, root, target, packageName) <==>
            || NamesModule(source, target)
            || (!(exists user, dir, name :: AppDirectory(root, user, dir, name))
                && ((packageName != "" && exists dir, front, back :: Sandboxed(root, packageName, dir, front, back))
                    || exists user, tail :: InStorage(root, user, tail)))
  {
    PrivateIff(root);
    SandboxIff(root, packageName);
    StorageViewIff(root);
  }
}
