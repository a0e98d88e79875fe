/**
 * `isDangerousPath`: refuses folders the app must never reorganise: system
 * directories of Windows and Unix-like systems, the user's profile root and
 * drive roots. The comparison is made on the resolved path, lower-cased, with
 * backslashes turned into forward slashes.
 *
 * `path.resolve` and the environment are inputs here: the caller supplies the
 * resolved path and the values of USERPROFILE and HOME.
 */
module PathGuard {
  import opened Optional
  import opened Text

  const WindowsProtected: seq<string> := ["c:/", "c:/windows", "c:/windows/system32", "c:/windows/syswow64",
    "c:/program files", "c:/program files (x86)", "c:/programdata", "c:/users", "c:/$recycle.bin",
    "c:/recovery", "c:/boot", "c:/system volume information"]

  const UnixProtected: seq<string> := ["/", "/bin", "/sbin", "/usr", "/usr/bin", "/usr/sbin", "/usr/lib",
    "/usr/local", "/etc", "/var", "/sys", "/proc", "/dev", "/boot", "/lib", "/lib64", "/opt", "/root", "/tmp"]

  const Protected: seq<string> := WindowsProtected + UnixProtected

  const ProfileReason := "Your user profile root is protected. Choose a subfolder like Desktop or Downloads."

  const DriveReason := "Drive roots are protected. Choose a subfolder."

  /** Which flavour of Node's `path` module is in use. */
  datatype Platform = Posix | Windows

  /** `{ dangerous: false }` or `{ dangerous: true, reason }`. */
  datatype PathCheck = Safe | Dangerous(reason: string)

  // ---------------------------------------------------------------------------
  // Normalisation

  /** Lower-cases a path and turns every backslash into a forward slash. */
  function Normalize(p: string): (n: string)
    ensures |n| == |p|
    ensures forall k :: 0 <= k < |n| ==> n[k] != '\\' && !IsUpper(n[k])
    ensures forall k :: 0 <= k < |n| ==> n[k] == if p[k] == '\\' then '/' else LowerChar(p[k])
  {
    if p == [] then []
    else [if p[0] == '\\' then '/' else LowerChar(p[0])] + Normalize(p[1..])
  }

  /** A path already in lower case with forward slashes is its own normal form. */
  lemma NormalizeFixed(p: string)
    requires forall k :: 0 <= k < |p| ==> p[k] != '\\' && !IsUpper(p[k])
    ensures Normalize(p) == p
  {
  }

  lemma NormalizeIdempotent(p: string)
    ensures Normalize(Normalize(p)) == Normalize(p)
  {
    var n := Normalize(p);
    assert forall k :: 0 <= k < |n| ==> Normalize(n)[k] == n[k];
  }

  /** The loop over the protected list, from index `j` on: does `n` equal an
      entry, bare or with a trailing slash? */
  predicate MatchesFrom(n: string, list: seq<string>, j: nat)
    requires j <= |list|
    decreases |list| - j
  {
    if j == |list| then false
    else n == list[j] || n == list[j] + "/" || MatchesFrom(n, list, j + 1)
  }

  lemma {:induction false} MatchesFromIff(n: string, list: seq<string>, j: nat)
    requires j <= |list|
    ensures MatchesFrom(n, list, j) <==> exists k :: j <= k < |list| && (n == list[k] || n == list[k] + "/")
    decreases |list| - j
  {
    if j < |list| {
      MatchesFromIff(n, list, j + 1);
    }
  }

  /** What the loop decides for the whole list. */
  predicate Listed(n: string) {
    MatchesFrom(n, Protected, 0)
  }

  /** `n` is a protected directory, bare or with a trailing slash. */
  predicate IsProtected(n: string) {
    exists k :: 0 <= k < |Protected| && (n == Protected[k] || n == Protected[k] + "/")
  }

  lemma ListedIff(n: string)
    ensures Listed(n) <==> IsProtected(n)
  {
    MatchesFromIff(n, Protected, 0);
  }

  /** A drive root: a lower-case drive letter and a colon, optionally followed
      by one slash, and nothing else. */
  predicate IsDriveRoot(n: string) {
    (|n| == 2 || (|n| == 3 && n[2] == '/')) && 'a' <= n[0] <= 'z' && n[1] == ':'
  }

  /** The user's home directory, normalised: `USERPROFILE` if set and
      non-empty, else `HOME`, else the empty string. */
  function HomeDir(userProfile: Option<string>, home: Option<string>): (h: string)
    ensures userProfile.Some? && userProfile.value != [] ==> h == Normalize(userProfile.value)
    ensures (userProfile.None? || userProfile.value == []) && home.Some? ==> h == Normalize(home.value)
    ensures (userProfile.None? || userProfile.value == []) && home.None? ==> h == []
  {
    if userProfile.Some? && userProfile.value != [] then Normalize(userProfile.value)
    else if home.Some? then Normalize(home.value)
    else []
  }

  predicate IsProfileRoot(n: string, h: string) {
    h != [] && (n == h || n == h + "/")
  }

  // ---------------------------------------------------------------------------
  // path.basename

  predicate IsSep(pl: Platform, c: char) {
    c == '/' || (pl == Windows && c == '\\')
  }

  /** Where the scan for the last component stops: after a drive letter and
      colon on Windows, otherwise at the start. */
  function BaseFloor(pl: Platform, p: string): (lo: nat)
    ensures lo <= |p|
  {
    if pl == Windows && |p| >= 2 && (('a' <= p[0] <= 'z') || ('A' <= p[0] <= 'Z')) && p[1] == ':' then 2 else 0
  }

  /** End of the last component: trailing separators (down to `lo`) dropped. */
  function ComponentEnd(pl: Platform, p: string, lo: nat, e: nat): (r: nat)
    requires lo <= e <= |p|
    requires forall k :: e <= k < |p| ==> IsSep(pl, p[k])
    ensures lo <= r <= e
    ensures forall k :: r <= k < |p| ==> IsSep(pl, p[k])
    ensures r > lo ==> !IsSep(pl, p[r - 1])
    decreases e
  {
    if e > lo && IsSep(pl, p[e - 1]) then ComponentEnd(pl, p, lo, e - 1) else e
  }

  /** Start of the component that ends at `e`. */
  function ComponentStart(pl: Platform, p: string, lo: nat, s: nat): (r: nat)
    requires lo <= s <= |p|
    ensures lo <= r <= s
    ensures forall k :: r <= k < s ==> !IsSep(pl, p[k])
    ensures r > lo ==> IsSep(pl, p[r - 1])
    decreases s
  {
    if s > lo && !IsSep(pl, p[s - 1]) then ComponentStart(pl, p, lo, s - 1) else s
  }

  /** `path.basename(p)`: the last component, ignoring trailing separators;
      empty when there is none. */
  function Basename(pl: Platform, p: string): (b: string)
    ensures |b| <= |p|
    ensures forall k :: 0 <= k < |b| ==> !IsSep(pl, b[k])
    ensures b != [] <==> exists k :: BaseFloor(pl, p) <= k < |p| && !IsSep(pl, p[k])
  {
    var lo := BaseFloor(pl, p);
    var e := ComponentEnd(pl, p, lo, |p|);
    var s := ComponentStart(pl, p, lo, e);
    assert s < e ==> lo <= s < |p| && !IsSep(pl, p[s]);
    p[s..e]
  }

  /** The base name is a separator-free slice of the argument, followed only
      by separators, and starting at the floor or just after a separator. */
  lemma BasenameShape(pl: Platform, p: string)
    ensures var b := Basename(pl, p);
      (forall k :: 0 <= k < |b| ==> !IsSep(pl, b[k]))
      && exists s, e :: 0 <= s <= e <= |p| && b == p[s..e]
           && (forall k :: e <= k < |p| ==> IsSep(pl, p[k]))
           && (s == BaseFloor(pl, p) || (s > 0 && IsSep(pl, p[s - 1])))
  {
    var lo := BaseFloor(pl, p);
    var e := ComponentEnd(pl, p, lo, |p|);
    var s := ComponentStart(pl, p, lo, e);
    assert Basename(pl, p) == p[s..e];
  }

  /** The name quoted in the message: the base name, or the argument itself
      when that is empty. */
  function DisplayName(pl: Platform, folderPath: string): string {
    var b := Basename(pl, folderPath);
    if b != [] then b else folderPath
  }

  function ProtectedReason(name: string): string {
    "\"" + name + "\" is a protected system directory."
  }

  // ---------------------------------------------------------------------------

  /** `isDangerousPath(folderPath)`, where `resolved` is `path.resolve(folderPath)`. */
  function CheckPath(pl: Platform, folderPath: string, resolved: string,
                     userProfile: Option<string>, home: Option<string>): (v: PathCheck)
    ensures var n, h := Normalize(resolved), HomeDir(userProfile, home);
      v.Dangerous? <==> Listed(n) || IsProfileRoot(n, h) || IsDriveRoot(n)
    ensures Listed(Normalize(resolved)) ==>
      v == Dangerous(ProtectedReason(DisplayName(pl, folderPath)))
    ensures var n, h := Normalize(resolved), HomeDir(userProfile, home);
      !Listed(n) && IsProfileRoot(n, h) ==> v == Dangerous(ProfileReason)
    ensures var n, h := Normalize(resolved), HomeDir(userProfile, home);
      !Listed(n) && !IsProfileRoot(n, h) && IsDriveRoot(n) ==> v == Dangerous(DriveReason)
  {
    var n := Normalize(resolved);
    var h := HomeDir(userProfile, home);
    if Listed(n) then Dangerous(ProtectedReason(DisplayName(pl, folderPath)))
    else if h != [] && (n == h || n == h + "/") then Dangerous(ProfileReason)
    else if IsDriveRoot(n) then Dangerous(DriveReason)
    else Safe
  }

  /** The verdict ignores letter case and the kind of slash in the resolved path. */
  lemma CheckIgnoresSpelling(pl: Platform, folderPath: string, r1: string, r2: string,
                             userProfile: Option<string>, home: Option<string>)
    requires Normalize(r1) == Normalize(r2)
    ensures CheckPath(pl, folderPath, r1, userProfile, home) == CheckPath(pl, folderPath, r2, userProfile, home)
  {
  }

  /** Every listed directory is refused, with or without a trailing slash. */
  lemma ListedRefused(pl: Platform, folderPath: string, resolved: string,
                      userProfile: Option<string>, home: Option<string>, k: nat, slash: bool)
    requires k < |Protected|
    requires Normalize(resolved) == if slash then Protected[k] + "/" else Protected[k]
    ensures CheckPath(pl, folderPath, resolved, userProfile, home).Dangerous?
  {
    ListedIff(Normalize(resolved));
  }

  /** The lengths and first characters of the listed directories. */
  lemma ProtectedShape(k: nat)
    requires k < |Protected|
    ensures |Protected[k]| in {1, 3, 4, 5, 6, 7, 8, 9, 10, 11, 14, 15, 16, 19, 22, 28}
    ensures Protected[k][0] == 'c' || Protected[k][0] == '/'
  {
  }

  /** A path whose length or first character fits no listed directory is not listed. */
  lemma NotListed(n: string)
    requires n != []
    requires (|n| in {13, 18, 21, 24, 25, 26, 27} || |n| >= 30) || (n[0] != 'c' && n[0] != '/')
    ensures !IsProtected(n)
  {
    forall k | 0 <= k < |Protected|
      ensures n != Protected[k] && n != Protected[k] + "/"
    {
      ProtectedShape(k);
    }
  }

  /** A path that is not listed, not the profile root and not a drive root is allowed. */
  lemma SafeWhenUnlisted(pl: Platform, folderPath: string, resolved: string,
                         userProfile: Option<string>, home: Option<string>)
    requires var n := Normalize(resolved);
      !IsProtected(n) && !IsProfileRoot(n, HomeDir(userProfile, home)) && !IsDriveRoot(n)
    ensures CheckPath(pl, folderPath, resolved, userProfile, home) == Safe
  {
    ListedIff(Normalize(resolved));
  }

  /** The example paths below are already in normal form. */
  lemma PlainPath(p: string)
    requires p == "c:/users/alexandra/music" || p == "c:/users/alexandra"
    ensures Normalize(p) == p
  {
    NormalizeFixed(p);
  }

  /** A folder inside the profile is allowed. */
  lemma ProfileSubfolderAllowed(resolved: string, profile: string)
    requires resolved == "c:/users/alexandra/music" && profile == "c:/users/alexandra"
    ensures CheckPath(Windows, resolved, resolved, Some(profile), None) == Safe
  {
    PlainPath(resolved);
    PlainPath(profile);
    NotListed(resolved);
    var h := HomeDir(Some(profile), None);
    assert h == profile;
    assert !IsProfileRoot(resolved, h) by {
      assert |resolved| != |profile| && |resolved| != |profile| + 1;
    }
    assert !IsDriveRoot(resolved);
    SafeWhenUnlisted(Windows, resolved, resolved, Some(profile), None);
  }

  /** The profile root itself is refused, whatever HOME says. */
  lemma ProfileRootRefused(resolved: string)
    requires resolved == "c:/users/alexandra"
    ensures CheckPath(Windows, resolved, resolved, Some(resolved), Some("/home/alexandra")) == Dangerous(ProfileReason)
  {
    PlainPath(resolved);
    NotListed(resolved);
    ListedIff(resolved);
  }

  /** A drive root other than C: gets the drive-root message; C: itself is on
      the list and is named by the argument, since it has no base name. */
  lemma DriveRoots(d: string, c: string)
    requires d == "D:\\" && c == "C:\\"
    ensures CheckPath(Windows, d, d, None, None) == Dangerous(DriveReason)
    ensures CheckPath(Windows, c, c, None, None) == Dangerous(ProtectedReason(c))
  {
    assert Normalize(d) == "d:/";
    NotListed("d:/");
    ListedIff("d:/");
    assert Normalize(c) == "c:/" == Protected[0];
    ListedIff("c:/");
    assert BaseFloor(Windows, c) == 2;
    assert ComponentEnd(Windows, c, 2, 3) == 2;
    assert Basename(Windows, c) == [];
  }
}
