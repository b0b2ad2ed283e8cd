# rosdep and rosinstall_generator, modelled in Dafny

This project models the data-in/data-out core of the `rosdep` repository in Dafny 4.11 and proves properties of that model. It covers three parts of the repository.

- **rosdep.** Rule resolution: `get_rule_for_platform`, view merging and lookup, the resolve cache. The installer registry and the generic package-manager installer. The `sources.list` parser and matcher. The dependency graph's validation, cycle detection and install order. The legacy stack database and installer registry. The command-line helpers. The gbpdistro conversion. The rospkg version checker and view loader. The catkin package registries and the metadata cache. One module for each platform file.
- **rosinstall_generator.** Classifying names and packages, building the `.rosinstall` entries with their local names and tarball URLs, the wet and dry dependency closures, and the set algebra and sorting of `generate_rosinstall`.
- **Top-level `distro.py`.** The release-file view of a wet distribution.

There is one Dafny module per source file (`Lookup`, `Installers`, `SourcesList`, `Debian`, `GenDistro`, `Generator`, …). Shared modules hold the rest:

- `Base`: `Option` and `Result`.
- `Strings`: the Python `str` operations the sources use.
- `Seqs`: de-duplication, Python's string order and insertion.
- `Yaml`: the YAML/JSON value tree that rules are written in.
- `Platforms`: the command builders and the registration every platform file shares.

Python dictionaries become `map`s. Where the source depends on insertion order they become sequences of pairs. Exceptions become the error arm of a `Result`, named after the Python exception. Mutable registries (`InstallerContext`, `RosdepDatabase`, `MetaDatabase`, the catkin tables, the dependency graph) become immutable records, and each update returns a new record.

Everything the source reaches outside its own logic is passed in as a parameter:

- shell commands: a function from argument list to output text;
- the operating-system detector: a record of name, version and codename;
- the network and the file system: functions from URL or path to optional text;
- the rosdistro dependency walkers: functions from a package and an ignore set to a result.

`elevate_priv` is an abstract prefix, `elev`, placed in front of each command. `as_root` is a flag. The `reinstall` filtering that the platform files rely on is given as the list of packages to install.

rosdep2 is written for both Python 2 and Python 3: src/rosdep2/shell_utils.py:40-43 and src/rosdep2/url_utils.py:30-37 choose by version. src/rosdep2/sources_list.py:34, src/rosdep2/gbpdistro_support.py:3 and the standalone distro.py:1 import `urllib2` unconditionally, so they load only under Python 2. The model follows the behaviour the two versions share, and Python 2 in the modules that load only there. In two modules that also load under Python 3, the code works only under Python 2:

- src/rosdep2/dependency_graph.py:59 calls `has_key`, which Python 3 dictionaries lack.
- src/rosdep2/platforms/slackware.py:64-66 pipes a decoded `str` into a binary pipe.

For each of these, the main member models Python 2. A second member models Python 3 as written, and the difference is listed under "## Findings".

Where a test in the repository disagrees with the code, the model follows the code. Where the code does not run as written, the model follows it too, apart from the hooks above: `elevate_priv`, which the platform files call, is defined nowhere in the repository, and src/rosdep2/installers.py:339 takes no `reinstall` argument although the platform files pass one. The other cases are listed under "## Findings". Some examples:

- The `equery` probe counts a package as installed exactly when its output is empty, because `"".count("")` is 1.
- The organisation of an `https` Homebrew URL keeps its leading `/`.
- The dependency graph's cycle check reports a key reached along two paths as a cycle.

## Model

| member | source | states |
|---|---|---|
| Platforms.AllAtOnce | src/rosdep2/platforms/alpine.py:75-90 | no packages gives no command; otherwise one command that starts with the privilege prefix and program, ends with every package, and carries exactly the given options between them |
| Platforms.PerPackage | src/rosdep2/platforms/slackware.py:111-118 | one command per package, in order, each invoking the program on that package alone with exactly the given options |
| Platforms.EachPackage | src/rosdep2/platforms/slackware.py:79-89 | one command per package, in order, each starting with the privilege prefix |
| Platforms.EachPackageNames | src/rosdep2/platforms/slackware.py:79-89 | reading the word after the program in each command gives back the packages in order, each followed by the fixed tail |
| Platforms.Keep | src/rosdep2/platforms/arch.py:69-70 | the kept packages are exactly the requested ones the probe accepts, and no more than were requested |
| Platforms.KeepAppend | src/rosdep2/platforms/arch.py:69-70 | filtering a concatenation filters each part, so detection keeps the request order |
| Platforms.KeepIdempotent | src/rosdep2/platforms/arch.py:69-70 | probing the detected packages again detects all of them |
| Platforms.PySlice | src/rosdep2/platforms/debian.py:113 | Python slicing never yields more than the string, and within bounds is the ordinary slice |
| Platforms.PyFind | src/rosdep2/platforms/debian.py:113 | `find` gives the first index holding the character, or -1 exactly when there is none |
| Platforms.PyFindAt | src/rosdep2/platforms/debian.py:113 | the first occurrence of a character in `a + c + b` is right after `a` when `a` lacks it |
| Platforms.Before | src/rosdep2/platforms/redhat.py:86 | `split(sep, 1)[0]` is the longest prefix free of the separator: all of the string when it has none, otherwise the text up to the first separator |
| Platforms.AddKeys | src/rosdep2/installers.py:172-187 | adding keys in turn fails exactly when some key is not a registered installer; otherwise the OS's key list gains the keys in order, the context stays well formed and nothing else changes |
| Platforms.Register | src/rosdep2/installers.py:200-220 | a platform's registration keeps the context well formed, makes the platform's default the OS's default, leaves detection and overrides alone, and succeeds whenever all its installers are registered |
| Platforms.RegisterKeepsOthers | src/rosdep2/installers.py:200-220 | registering one platform leaves the default installer of every other OS as it was |
| Platforms.RegisterTwo | src/rosdep2/platforms/redhat.py:54-60 | registering two platforms for different OSes sets both defaults and succeeds whenever both installer lists are registered |
| Platforms.Alias | src/rosdep2/platforms/arch.py:56-62 | a detected `from` OS without an override is reported as `to` with the given version; with an override or another OS nothing changes |
| Platforms.AliasOnce | src/rosdep2/platforms/arch.py:56-62 | once an alias has set the override, any later alias changes nothing |
| Alpine.RegisterPlatforms | src/rosdep2/platforms/alpine.py:46-50 | registration fails exactly when apk, pip or source is not an installer of the context; on success the context stays well formed and apk is Alpine's default installer |
| Alpine.ApkDetect | src/rosdep2/platforms/alpine.py:53-67 | no packages means no query and nothing installed; every reported name is one output line |
| Alpine.ReadsListing | src/rosdep2/platforms/alpine.py:53-67 | when apk prints the names one per line, with or without a final line break, the detected list is exactly those names |
| Alpine.GetInstallCommand | src/rosdep2/platforms/alpine.py:75-90 | nothing to install gives no command; otherwise a single `apk add` naming every package, with `--interactive` exactly when interactive and `--quiet` exactly when quiet |
| Arch.RegisterPlatforms | src/rosdep2/platforms/arch.py:47-62 | registration fails exactly when source, pacman or pip is missing; pacman becomes Arch's default; a detected Manjaro without an override is aliased to Arch with the detected codename |
| Arch.PacmanDetect | src/rosdep2/platforms/arch.py:65-70 | a package is reported installed exactly when it was asked about and the pacman probe accepts it |
| Arch.GetInstallCommand | src/rosdep2/platforms/arch.py:78-93 | nothing to install gives no command; otherwise one `pacman -S` with every package, `--noconfirm` exactly when not interactive, `--needed` exactly when not reinstalling, `-q` exactly when quiet |
| FreeBsd.RegisterPlatforms | src/rosdep2/platforms/freebsd.py:45-48 | registration fails exactly when pkg or pip is not an installer; on success pkg is FreeBSD's default and the context stays well formed |
| FreeBsd.PkgDetect | src/rosdep2/platforms/freebsd.py:51-63 | a package is detected exactly when it was requested and is `builtin` or `pkg query` prints a word for it; `builtin` is always detected |
| FreeBsd.SilentQuery | src/rosdep2/platforms/freebsd.py:51-63 | when `pkg query` prints nothing, only the requested `builtin` entries are detected, in order |
| FreeBsd.GetInstallCommand | src/rosdep2/platforms/freebsd.py:75-81 | nothing to install gives no command; otherwise one `pkg install -y` with every package and no further options |
| OpenSuse.RegisterPlatforms | src/rosdep2/platforms/opensuse.py:44-47 | registration fails exactly when source or zypper is missing; on success zypper is the default and the OS's installer keys gain source then zypper |
| OpenSuse.RpmDetect | src/rosdep2/platforms/opensuse.py:49-63 | a line is reported exactly when it is an output line that is non-empty and holds no space |
| OpenSuse.DetectsPrintedNames | src/rosdep2/platforms/opensuse.py:49-63 | when `rpm` prints one installed name per line, the detected list is exactly those names in order |
| OpenSuse.KeepAll | src/rosdep2/platforms/opensuse.py:58-61 | lines that all name packages are all kept, in order |
| OpenSuse.GetInstallCommand | src/rosdep2/platforms/opensuse.py:73-81 | the command is the shared all-at-once shape: `sudo zypper install`, `-yl` exactly when not interactive, then every package; nothing to install gives no command |
| Slackware.RegisterPlatforms | src/rosdep2/platforms/slackware.py:49-54 | registration fails exactly when sbotools, pip, source or slackpkg is missing; on success sbotools is Slackware's default |
| Slackware.AnyStartsWith | src/rosdep2/platforms/slackware.py:63-67 | holds exactly when some installed entry starts with the name, ignoring case |
| Slackware.SbotoolsDetect | src/rosdep2/platforms/slackware.py:63-71 | a package is detected exactly when it was requested and some line of the package listing starts with it, ignoring case |
| Slackware.DetectsListedEntry | src/rosdep2/platforms/slackware.py:63-71 | a package is detected when an entry of the listing starts with it in any case, and not detected when none does |
| Slackware.SbotoolsDetectAsWritten | src/rosdep2/platforms/slackware.py:63-71 | under Python 3, a call with packages and a non-empty listing raises `TypeError` (a `str` handed to a binary pipe); otherwise nothing is detected |
| Slackware.PipeRaisesOnInstalled | src/rosdep2/platforms/slackware.py:63-71 | for a package an installed entry names, `SbotoolsDetect` detects it while the Python 3 run raises `TypeError` |
| Slackware.SbotoolsCommand | src/rosdep2/platforms/slackware.py:79-89 | without sbotools the result is `InstallFailed` with the source's message; otherwise one `sboinstall <p> -j` per package, in order |
| Slackware.SlackpkgDetect | src/rosdep2/platforms/slackware.py:98-103 | a package is detected exactly when it was requested and the slackpkg search accepts it |
| Slackware.SlackpkgCommand | src/rosdep2/platforms/slackware.py:111-118 | one `slackpkg install <p>` per package, in order, with no options whatever `interactive` says |
| RedHat.FedoraDefault | src/rosdep2/platforms/redhat.py:67 | Fedora's default is dnf or yum, and dnf exactly when the version is a release number above 21 |
| RedHat.FedoraDnfFrom22 | src/rosdep2/platforms/redhat.py:67 | release 22 gets dnf, release 21 yum, and any later release than one with dnf gets dnf too |
| RedHat.FedoraVersionKey | src/rosdep2/platforms/redhat.py:68 | from release 21 on the version key is the release number, which is all digits; before that, or for a non-number, it is the codename |
| RedHat.RhelVersionKey | src/rosdep2/platforms/redhat.py:76 | RHEL's version key is the major version: a prefix of the version holding no `.` |
| RedHat.RegisterBoth | src/rosdep2/platforms/redhat.py:54-76 | registering Fedora then RHEL succeeds when Fedora's installers are registered, sets Fedora's release-dependent default and RHEL's yum default, and leaves the reported OS alone |
| RedHat.AliasCentos | src/rosdep2/platforms/redhat.py:79-86 | a detected CentOS without an override is reported as RHEL with its major version; any other OS or an override leaves the context as it was |
| RedHat.RegisterPlatforms | src/rosdep2/platforms/redhat.py:54-59 | the whole registration keeps both defaults, aliases a detected CentOS to RHEL with its major version, and leaves any other OS as detected |
| RedHat.RpmExpandCmd | src/rosdep2/platforms/redhat.py:137-147 | a name without `%` is its own expansion; one with a macro is the stripped output of `rpm -E` |
| RedHat.RpmDetectCmd | src/rosdep2/platforms/redhat.py:101-117 | never reports more names than were requested |
| RedHat.ProvidedIsKeep | src/rosdep2/platforms/redhat.py:101-117 | the index loop over the expanded names is a filter of the raw names by whether their expansion is an output line |
| RedHat.RpmDetectCmdMembers | src/rosdep2/platforms/redhat.py:101-117 | a raw name is detected exactly when it was requested and its expansion is a whole line of the query output, in request order |
| RedHat.RpmInstall | src/rosdep2/platforms/redhat.py:167-180 | nothing to install gives no command |
| RedHat.RpmInstallShape | src/rosdep2/platforms/redhat.py:167-206 | the four branches are one command carrying `--assumeyes` exactly when not interactive and `--quiet` exactly when quiet, then the lenient option and `install`, then every expanded name |
| RedHat.DnfCommand | src/rosdep2/platforms/redhat.py:167-180 | one `dnf` command over the expanded names whose options are `--assumeyes` when not interactive, `--quiet` when quiet, then `--setopt=strict=0 install`; none when nothing is to be installed |
| RedHat.YumCommand | src/rosdep2/platforms/redhat.py:193-206 | one `yum` command over the expanded names whose options are `--assumeyes` when not interactive, `--quiet` when quiet, then `--skip-broken install`; none when nothing is to be installed |
| Debian.MxVersion | src/rosdep2/platforms/debian.py:104-113 | the MX version is never longer than os-release's `VERSION` |
| Debian.MxVersionParens | src/rosdep2/platforms/debian.py:104-113 | for a `VERSION` of the form `a(b)c` the MX version is exactly `b` |
| Debian.FirstAliases | src/rosdep2/platforms/debian.py:84-113 | a detected Elementary, Linaro or MX without an override is reported as its parent OS, MX with the parenthesised part of its version and the others with their codename; anything else is left alone |
| Debian.LastAliases | src/rosdep2/platforms/debian.py:116-143 | a detected Pop!, Raspbian or Zorin without an override is reported as its parent OS with its codename; anything else is left alone |
| Debian.RegisterAliases | src/rosdep2/platforms/debian.py:61-72 | the six aliases in order: an aliased OS without an override is reported as Ubuntu or Debian, with the MX version for MX and the codename for the rest; an override or any other OS leaves the context unchanged |
| Debian.RegisterPlatforms | src/rosdep2/platforms/debian.py:61-82 | registration succeeds when apt, pip, gem, npm and source are registered, keeps the context well formed, and makes apt the default of both Debian and Ubuntu |
| Debian.LockKey | src/rosdep2/platforms/debian.py:239-242 | the package name of a request holds no `=`, and a request without a version lock is its own name |
| Debian.VersionLockMap | src/rosdep2/platforms/debian.py:237-242 | every request's name is a key, and each key maps to a request carrying that name |
| Debian.QueryNames | src/rosdep2/platforms/debian.py:243-244 | the names given to `dpkg-query` are distinct and are exactly the keys of the version-lock map |
| Debian.InstalledRows | src/rosdep2/platforms/debian.py:250-255 | a name is reported exactly when some output row has four fields, the fourth `installed`, and the name first |
| Debian.LookupAll | src/rosdep2/platforms/debian.py:256 | the lookup fails exactly when a reported name was not asked about, raising `KeyError` for such a name; otherwise each reported name is replaced by its request, in order |
| Debian.Remaining | src/rosdep2/platforms/debian.py:260 | the remaining requests are exactly those not reported installed |
| Debian.DpkgDetect | src/rosdep2/platforms/debian.py:224-263 | a request is detected exactly when `dpkg-query` shows it installed under its version-lock key, or it is a virtual package one of whose providers is detected; every name `dpkg-query` reports is detected; a failure of the report is the call's failure |
| Debian.Reported | src/rosdep2/platforms/debian.py:237-256 | succeeds exactly when every installed row's name is a version-lock key of the requests; a request is reported exactly when an installed row carries its lock key and that key maps back to it |
| Debian.Candidates | src/rosdep2/platforms/debian.py:260 | the virtual-package candidates are requests not already reported installed |
| Debian.Virtuals | src/rosdep2/platforms/debian.py:261 | a name is returned exactly when some showpkg entry of that name has a provider that is detected |
| Debian.Provided | src/rosdep2/platforms/debian.py:261 | a package that is not virtual never counts as provided |
| Debian.ReportsRequestAsGiven | src/rosdep2/platforms/debian.py:237-263 | a request reported installed by a `dpkg-query` row is returned as requested, version lock included, when it is the only request for its name |
| Debian.IndexFrom | src/rosdep2/platforms/debian.py:172-178 | `index(x, from)` gives the first position at or after `from` holding `x`, or none when there is no such position |
| Debian.Starts | src/rosdep2/platforms/debian.py:170-179 | every package whose header is missing from the output goes into `notfound`, every start is a line of the output, and there are enough starts for the packages that were found |
| Debian.SkipPast | src/rosdep2/platforms/debian.py:187-199 | skipping to a marker leaves a suffix of the lines, and nothing when the marker is missing |
| Debian.SkipPastFirst | src/rosdep2/platforms/debian.py:187-199 | skipping past a marker resumes right after its first occurrence |
| Debian.FirstTokens | src/rosdep2/platforms/debian.py:217 | one provider per line after `Reverse Provides: `, each a single word |
| Debian.Section | src/rosdep2/platforms/debian.py:181-221 | a section read to its end names its package, and a virtual result lists at least one provider, each a single word |
| Debian.SectionWithVersions | src/rosdep2/platforms/debian.py:201-206 | a section whose line after `Versions: ` is not empty is a real package |
| Debian.SectionProviders | src/rosdep2/platforms/debian.py:201-221 | a section with an empty line after `Versions: ` lists the first word of each line after `Reverse Provides: ` as its providers |
| Debian.Sections | src/rosdep2/platforms/debian.py:181-221 | the entries follow the packages in order, each well formed, and a package whose header was not found is not virtual |
| Debian.SectionsNotFound | src/rosdep2/platforms/debian.py:181-184 | when no package's header was found, every package is reported not virtual, in order |
| Debian.ShowPkg | src/rosdep2/platforms/debian.py:156-221 | at most one entry per package, in order, each well formed, and a package missing from the output is not virtual |
| Debian.ShowPkgUnknown | src/rosdep2/platforms/debian.py:156-184 | when the output has no section for any package, every package is reported not virtual |
| Debian.Iterate | src/rosdep2/platforms/debian.py:265-279 | without reinstalling, each entry yields its providers when virtual and itself otherwise, in order |
| Debian.Expand | src/rosdep2/platforms/debian.py:266-279 | a real package yields itself; a virtual one yields its providers when not reinstalling |
| Debian.IterateNotVirtual | src/rosdep2/platforms/debian.py:265-279 | real packages are yielded as themselves, in order, whatever `reinstall` says |
| Debian.PlanShape | src/rosdep2/platforms/debian.py:296-303 | every planned command is `apt-get install` of one package with `-y` exactly when not interactive and `-qq` exactly when quiet |
| Debian.GetInstallCommand | src/rosdep2/platforms/debian.py:305-316 | nothing to install gives no commands; without reinstalling it cannot fail and plans one step per showpkg entry, in order: a real package installs itself, a virtual one is the choice of one command per provider; every planned command carries the call's options |
| Debian.PlansEntries | src/rosdep2/platforms/debian.py:265-316 | planning what each entry yields plans that entry: a real package's command ends with it, a virtual one's commands end with its providers in order |
| Debian.UnknownPackagesOneEach | src/rosdep2/platforms/debian.py:305-316 | when `apt-cache showpkg` knows none of the packages, each gets its own `apt-get install`, in order |
| Conda.GetCondaMambaCmd | src/rosdep2/platforms/conda.py:39-47 | succeeds exactly when one of micromamba, mamba, conda runs, returning the first that does; otherwise the exception names all three |
| Conda.NotFoundMessage | src/rosdep2/platforms/conda.py:47 | the failure message joins the candidates in order with commas |
| Conda.RegisterPlatforms | src/rosdep2/platforms/conda.py:54-56 | registration fails exactly when conda is not an installer; on success conda is the default |
| Conda.FirstVersion | src/rosdep2/platforms/conda.py:72-82 | `index` finds the first installed package of the name, and there is none exactly when no installed package has it |
| Conda.NameAndVersion | src/rosdep2/platforms/conda.py:72-73 | the name and version are the first two space-separated fields of the request |
| Conda.CondaDetect | src/rosdep2/platforms/conda.py:59-87 | the GL markers are always detected; a plain name is detected exactly when some installed package has it; a `name version` request is detected exactly when the first installed `name` has that version or one that extends it after a dot; only requests are reported |
| Conda.Pinned | src/rosdep2/platforms/conda.py:96 | each package keeps its length with every space turned into `=`, and a package without a space is unchanged |
| Conda.GetInstallCommand | src/rosdep2/platforms/conda.py:94-113 | nothing to install gives no command; otherwise it fails exactly when no conda executable runs, and builds one `<exe> install -c robostack -c conda-forge` command over the pinned packages with `-y`, `-q` and `--force-reinstall` exactly when not interactive, quiet and reinstalling |
| Npm.ListCommand | src/rosdep2/platforms/npm.py:69-73 | the listing is `npm list ... -parseable`, global exactly when running as root |
| Npm.LastSegments | src/rosdep2/platforms/npm.py:76-78 | one entry per line, each the line's last `/`-separated segment |
| Npm.NpmDetect | src/rosdep2/platforms/npm.py:60-80 | a name is detected exactly when it was requested and some output line after the first ends in that segment |
| Npm.SegmentsListed | src/rosdep2/platforms/npm.py:76-79 | the segments of the lines after the first are exactly the names those lines end in |
| Npm.EmptyListing | src/rosdep2/platforms/npm.py:60-80 | an empty listing detects nothing |
| Npm.GetInstallCommand | src/rosdep2/platforms/npm.py:86-101 | without npm the result is `InstallFailed` with the source's message; otherwise one `npm install <p>` per package, in order, with `-g` exactly when running as root |
| Npm.TwoPackages | src/rosdep2/platforms/npm.py:86-101 | two packages give `npm install -g a` and `npm install -g b` as root, and the same without `-g` otherwise |
| Pip.GetPipCommand | src/rosdep2/platforms/pip.py:53-72 | the command is `pipN`, this interpreter's `-m pip` or `pythonN -m pip`; `pipN` wins whenever it runs; this interpreter is chosen only when its major version is the requested one and it has pip; nothing is found exactly when all three fail |
| Pip.PipCommandChoices | src/rosdep2/platforms/pip.py:53-72 | with version 3: `pip3` when it runs, the interpreter when nothing runs, `python3 -m pip` when only that runs and the interpreter is another version |
| Pip.FreezeName | src/rosdep2/platforms/pip.py:102 | the name is the prefix of the line before its first `==`, holds no `==`, and is the whole line when the line has none |
| Pip.FreezeMatchesIff | src/rosdep2/platforms/pip.py:98-104 | a package is matched exactly when it was requested and some freeze line names it |
| Pip.PipDetect | src/rosdep2/platforms/pip.py:84-125 | nothing without a pip; only requested packages; the freeze matches come first, and are everything when a test shell is given |
| Pip.ShowAddsOnlyMissed | src/rosdep2/platforms/pip.py:111-123 | the `pip show` fallback adds only packages that freeze did not list and that `pip show` reports with status 0 and output |
| Pip.EmptyFreeze | src/rosdep2/platforms/pip.py:98-104 | empty freeze output detects no non-empty package name |
| Pip.GetInstallCommand | src/rosdep2/platforms/pip.py:146-158 | no pip is exactly the `InstallFailed` case, with the source's message; otherwise one `pip install -U` per package in order, `-q` exactly when quiet, `-I` exactly when reinstalling |
| Pip.TwoPackages | src/rosdep2/platforms/pip.py:146-158 | two packages, neither quiet nor reinstalling, give `<pip> install -U a` and `<pip> install -U b` |
| Gentoo.RegisterPlatforms | src/rosdep2/platforms/gentoo.py:42-45 | registering succeeds exactly when equery and source are known installers, keeps the context valid, and makes equery Gentoo's default |
| Gentoo.EqueryDetect | src/rosdep2/platforms/gentoo.py:48-53 | a package is detected exactly when it was requested and `equery -q l` prints nothing for it (`count("") == 1` holds only for the empty string) |
| Gentoo.DetectAppend | src/rosdep2/platforms/gentoo.py:52-53 | detection keeps the packages' order: detecting a concatenation detects each part in turn |
| Gentoo.EqueryAvailableAsWritten | src/rosdep2/platforms/gentoo.py:56-60 | without `/usr/bin/equery` the answer is no; with it, the read of the unbound name `stdout` raises `NameError` |
| Gentoo.AvailableVersions | src/rosdep2/platforms/gentoo.py:56-60 | with the intended check, `equery -V` reporting gentoolkit 0.3.x makes equery available and 0.2.x does not |
| Gentoo.GetInstallCommandAsWritten | src/rosdep2/platforms/gentoo.py:67-75 | nothing to install gives no command; otherwise the call fails with `NameError` exactly when equery is present, and succeeds with one `sudo emerge -u` per package |
| Gentoo.GetInstallCommand | src/rosdep2/platforms/gentoo.py:67-75 | one `sudo emerge <p>` per package in order, with `-u` exactly when equery 0.3 is not available |
| Gentoo.AgreeWithoutEquery | src/rosdep2/platforms/gentoo.py:56-75 | where equery is absent the as-written and the corrected command lists are the same |
| Gentoo.TwoPackages | src/rosdep2/platforms/gentoo.py:67-75 | `a` and `b` give `sudo emerge a`, `sudo emerge b` with equery 0.3, and the `-u` forms without equery |
| Gentoo.EqueryAvailable | src/rosdep2/platforms/gentoo.py:56-60 | with the captured output read as intended, `equery` is available exactly when it is installed and characters 8 to 11 of its `-V` output are `0.3.` |
| Brewmaker.GetRepoName | src/rosdep2/platforms/brewmaker.py:32-36 | the repository name holds no '/', and is the URL's last component with one trailing `.git` removed when it has one |
| Brewmaker.RepoNameOfUrl | src/rosdep2/platforms/brewmaker.py:32-36 | `<dir>/<name>.git` names `name`, and so does `<dir>/<name>` when `name` does not end in `.git` |
| Brewmaker.GetOrgName | src/rosdep2/platforms/brewmaker.py:25-30 | fails exactly when `urlparse` rejects the URL; otherwise the directory of the parsed path with a leading `git@github.com:` removed |
| Brewmaker.OrgOfSshUrl | src/rosdep2/platforms/brewmaker.py:25-30 | an SSH remote `git@github.com:<org>/<repo>` names `org` |
| Brewmaker.OrgOfHttpsUrl | src/rosdep2/platforms/brewmaker.py:25-30 | an HTTPS URL `https://github.com/<org>/<repo>` gives `/<org>`, keeping the path's leading '/' |
| Brewmaker.ListTags | src/rosdep2/platforms/brewmaker.py:19-23 | a key is listed exactly when it starts with the prefix, and no more keys come out than went in |
| Brewmaker.LatestIsLastMaximum | src/rosdep2/platforms/brewmaker.py:44-45 | under a total preorder, `sorted(...)[-1]` picks a greatest version, and every later version is strictly smaller: the last of the greatest |
| Brewmaker.Versions | src/rosdep2/platforms/brewmaker.py:44 | one version per tag, the tag with the prefix cut off |
| Brewmaker.TarballUrlParts | src/rosdep2/platforms/brewmaker.py:14 | reading the tarball URL back by '/' gives the host, organisation, repository, tag `upstream/<version>` and file name again |
| Brewmaker.ComputeTarballUrlForLatest | src/rosdep2/platforms/brewmaker.py:38-47 | `IndexError` exactly when no key starts with `upstream/`; otherwise the tarball URL of one such tag's version |
| Brewmaker.LatestIsGreatest | src/rosdep2/platforms/brewmaker.py:38-47 | under a total preorder, the URL is for a version at least as large as every `upstream/` tag's version |
| Installers.Empty | src/rosdep2/installers.py:63-84 | a fresh context registers nothing, has no override and satisfies the registry invariant |
| Installers.SetOsOverride | src/rosdep2/installers.py:89-99 | after an override, the name and version used are exactly the override's; the registries are untouched |
| Installers.SetOsVersionType | src/rosdep2/installers.py:101-107 | accepted exactly for `'version'` and `'codename'`, `ValueError` otherwise; sets that OS's type and no other's; an unset OS reads as `'version'` |
| Installers.NameAndVersionDetected | src/rosdep2/installers.py:109-126 | without an override the detected name is used, with the codename exactly when the name's version type is `'codename'` and the version otherwise |
| Installers.SetInstaller | src/rosdep2/installers.py:135-151 | a non-installer is rejected with `TypeError`; otherwise the key is bound to the installer, replacing any earlier binding, and every other key keeps its binding |
| Installers.GetInstaller | src/rosdep2/installers.py:153-158 | succeeds exactly for a registered key, `KeyError` naming the key otherwise |
| Installers.GetInstallerKeys | src/rosdep2/installers.py:160-164 | the keys listed are exactly those `get_installer` accepts |
| Installers.AddOsInstallerKey | src/rosdep2/installers.py:172-187 | succeeds exactly for a registered installer (`KeyError` otherwise), appends it to that OS's list, leaves every other OS's list alone, and keeps the registry invariant |
| Installers.GetOsInstallerKeys | src/rosdep2/installers.py:189-198 | a known OS's list is returned unchanged; an unknown OS gives `[]` and becomes known with an empty list, as Python's `defaultdict` does |
| Installers.SetDefaultOsInstallerKey | src/rosdep2/installers.py:200-220 | succeeds exactly when the OS is known and the installer was added to it (`KeyError` otherwise), after which that installer is the OS's default |
| Installers.GetDefaultOsInstallerKey | src/rosdep2/installers.py:222-236 | `KeyError` exactly for an unknown OS; otherwise the default when one was set and `None` when not |
| Installers.ReadingKeysRegistersOs | src/rosdep2/installers.py:189-236 | for an unknown OS, asking for its default raises `KeyError`, but after its installer keys are read it answers `None` |
| Installers.Resolve | src/rosdep2/installers.py:313-328 | `InvalidRosdepData` exactly for a rule that is not a mapping, string or list; a list is returned as is; a mapping without `packages` resolves to `[]` |
| Installers.ResolveStringRule | src/rosdep2/installers.py:322-323 | a string rule of space-separated names resolves to those names |
| Installers.ResolvePackagesString | src/rosdep2/installers.py:318-321 | a `packages:` string of words resolves to those words, however they are spaced |
| Installers.Unique | src/rosdep2/installers.py:330-337 | the result is strictly sorted and holds exactly the packages of the resolutions |
| Installers.UniqueIsTheSortedUnion | src/rosdep2/installers.py:330-337 | any strictly sorted listing of exactly those packages is the result: it is determined by the union alone |
| Installers.PackagesToInstall | src/rosdep2/installers.py:339-340 | a package is left to install exactly when it was resolved and not detected |
| Installers.IsInstalledIff | src/rosdep2/installers.py:342-343 | installed exactly when every resolved package was detected |
| Installers.GetDependsAsWritten | src/rosdep2/installers.py:348-356 | for a depends-capable installer and a mapping rule, the read of the unbound `rosdep_args_dict` raises `NameError`; otherwise `[]` |
| Installers.GetDependsAsWrittenNeverDepends | src/rosdep2/installers.py:348-356 | as written, no call ever returns a dependency |
| Installers.GetDepends | src/rosdep2/installers.py:348-356 | as intended: the rule's `depends` list for a depends-capable installer and a mapping rule that has one, `[]` in every other case |
| Installers.GetDependsDiscrepancy | src/rosdep2/installers.py:348-356 | a `depends: [foo]` rule for a depends-capable installer fails as written and gives `[foo]` as intended |
| Installers.GetOsVersionType | src/rosdep2/installers.py:101-102 | an OS without a registered version type reads as the numeric version type |
| LegacyInstallers.RegisterInstaller | src/rosdep/installers.py:47-49 | fails with the source's assertion message exactly when the key is already registered; otherwise adds that one key, bound to the installer, and keeps every earlier binding |
| LegacyInstallers.GetInstaller | src/rosdep/installers.py:51-55 | the installer registered under the key, `KeyError` exactly when there is none |
| LegacyInstallers.RegisterThenGet | src/rosdep/installers.py:47-55 | a new key can be registered and read back, and registering it a second time fails |
| LegacyInstallers.RegisterOsInstaller | src/rosdep/installers.py:65-76 | never succeeds: without an installer the undefined module-level `get_installer` raises `NameError`; with one, `raise NotImplemented` raises `TypeError` |
| LegacyInstallers.SetDefaultOsInstaller | src/rosdep/installers.py:57-63 | never succeeds, and fails with `NameError` exactly when no installer is given |
| LegacyInstallers.AddInstaller | src/rosdep/installers.py:86-87 | the mode is bound to the installer; every other mode keeps its binding or absence |
| LegacyInstallers.GetOsInstaller | src/rosdep/installers.py:89-98 | the installer for the mode, `KeyError` exactly when the mode has none |
| LegacyInstallers.LastAddWins | src/rosdep/installers.py:86-98 | adding twice under one mode leaves the later installer, and adding under one mode does not change another |
| LegacyInstallers.GetPackagesToInstall | src/rosdep/installers.py:142-143 | a package is left to install exactly when it is listed and the detector does not report it |
| LegacyInstallers.PresenceIffAllDetected | src/rosdep/installers.py:145-146 | present exactly when the detector reports every listed package |
| RosdepModel.SetStackData | src/rosdep/model.py:89-98 | the stack is loaded with exactly the given entry, replacing any earlier one; every other stack reads as before |
| RosdepModel.MarkLoaded | src/rosdep/model.py:81-87 | the stack is loaded with empty data, no dependencies and no origin, even when it was loaded before; other stacks keep their state |
| RosdepModel.GetStackNames | src/rosdep/model.py:100-104 | the names listed are exactly the loaded stacks |
| RosdepModel.GetStackData | src/rosdep/model.py:106-112 | succeeds exactly for a loaded stack, `KeyError` naming it otherwise |
| RosdepModel.GetStackDependencies | src/rosdep/model.py:114-124 | on success the stack is loaded, its direct dependencies are in the result, and the result is closed: every member is loaded and its dependencies are members; a failure names a stack that is not loaded |
| RosdepModel.DependenciesOfAll | src/rosdep/model.py:120-123 | the union over the listed dependencies: each is loaded with its dependencies included, the union is closed, and a failure names a stack that is not loaded |
| RosdepModel.DependenciesLeast | src/rosdep/model.py:114-124 | the result is the least such set: any set holding the stack's dependencies and the dependencies of its own loaded members contains it |
| RosdepModel.AllLeast | src/rosdep/model.py:120-123 | the union over several dependencies is contained in every set that holds them and is closed under loaded dependencies |
| Lookup.FirstPresent | src/rosdep2/lookup.py:96-100 | the position of the first installer key, in the platform's order, that the mapping has; every earlier key is absent |
| Lookup.PickInstaller | src/rosdep2/lookup.py:96-100 | a mapping holding one of the installer keys yields the first such key with its value; anything else is kept whole with the fallback key |
| Lookup.GetRuleForPlatform | src/rosdep2/lookup.py:69-125 | non-mapping data is `InvalidRosdepData`; a missing OS is a resolution error; under the OS, the first of the platform's installer keys present wins; failing that a mapping is keyed by OS version, and a missing version is a resolution error; under the version the first installer key present wins again, and otherwise the version's rule goes to the default installer; a list or string under the OS goes to the default installer; a chosen rule that is not a mapping, list or string is `InvalidRosdepData` |
| Lookup.RuleUnderInstaller | src/rosdep2/lookup.py:95-100 | a rule given directly under one of the platform's installers is returned with that installer, whatever the version |
| Lookup.RuleUnderVersion | src/rosdep2/lookup.py:101-119 | a rule under the OS version and then an installer is returned with that installer, when the version is not itself an installer key |
| Lookup.RuleUnderVersionDefault | src/rosdep2/lookup.py:101-125 | a list or string under the OS version is returned with the default installer |
| Lookup.MissingVersion | src/rosdep2/lookup.py:112-113 | a version mapping that does not name the platform's version is a "no definition for OS version" error |
| Lookup.MergeDefinition | src/rosdep2/lookup.py:212-229 | with override or for a new key the update replaces the definition; otherwise it fails exactly when a shared OS key holds different values, and on success the OS mappings are united, the first origin kept, and every other key untouched |
| Lookup.KeysOfCons | src/rosdep2/lookup.py:212 | the keys of an entry are its first key and the keys of the rest |
| Lookup.Merge | src/rosdep2/lookup.py:205-229 | merging with override never fails; a successful merge defines exactly the view's keys and the entry's, and leaves keys the entry does not name unchanged; a failure names one of the entry's keys |
| Lookup.MergeOverride | src/rosdep2/lookup.py:212-215 | with override, each key of a duplicate-free entry ends up defined by that entry, with the entry's origin |
| Lookup.CreateView | src/rosdep2/lookup.py:491-507 | the view carries the requested name, every listed view key is loaded, and with an override entry it is built exactly when the listed entries merge |
| Lookup.MergeAll | src/rosdep2/lookup.py:499-501 | the listed entries merge in order; success means all were loaded and no earlier key is lost; an unknown view is one of the listed keys that is not loaded |
| Lookup.OverrideTakesPrecedence | src/rosdep2/lookup.py:503-505 | whatever the other views define, a key of the override entry looks up to the override's rule |
| Lookup.ViewLookup | src/rosdep2/lookup.py:192-197 | found exactly when the view declares the key, and then it is that definition |
| Lookup.GetViewsThatDefine | src/rosdep2/lookup.py:562-597 | a `(view, origin)` pair is reported exactly when that loaded view's own entry has the key, or it is the override entry's pair and that entry has the key |
| Lookup.DefiningViews | src/rosdep2/lookup.py:580-585 | the views whose own entry has the key, at most one pair per view |
| Lookup.ResolveFresh | src/rosdep2/lookup.py:420-436 | a resolution names a registered installer, comes from a rule the platform lookup found, and is that installer's resolution of the rule |
| Lookup.ResolveAsWritten | src/rosdep2/lookup.py:379-441 | as written, resolving never reports "Unsupported OS": reading the installer keys of an unknown OS registers it, so the default lookup cannot fail |
| Lookup.UnsupportedOsMisreported | src/rosdep2/lookup.py:420-430 | a rule for an OS without installers, in a fresh registry, is reported as the unsupported installer `None` |
| Lookup.Resolve | src/rosdep2/lookup.py:379-441 | as intended: an uncached key on an OS without installers is "Unsupported OS"; a success is cached under the key; other cache entries are kept |
| Lookup.ResolveCacheTransparent | src/rosdep2/lookup.py:401-411 | with a sound cache and views fixed by name, resolving gives the uncached answer and keeps the cache sound: the cache is never observable |
| DependencyGraph.Get | src/rosdep2/dependency_graph.py:43-46 | reading a known key leaves the graph unchanged; reading an unknown key yields a fresh resolution (no installer, no packages, no dependencies, a root) and adds the key at the end of the iteration order |
| DependencyGraph.Set | src/rosdep2/dependency_graph.py:34-46 | after storing, the key reads back the stored resolution, every other key reads as before, and a known key keeps its place in the iteration order |
| DependencyGraph.Visit | src/rosdep2/dependency_graph.py:48-52 | a successful cycle check returns a traveled list that continues the given one with the key; a failure is an assertion error naming a key of the graph |
| DependencyGraph.VisitAllReaches | src/rosdep2/dependency_graph.py:51-52 | when the loop over the dependencies succeeds, each dependency is itself checked successfully, with a traveled list that holds everything traveled before the loop |
| DependencyGraph.CycleDetected | src/rosdep2/dependency_graph.py:48-52 | any cycle of dependency edges through a key makes the check from that key fail |
| DependencyGraph.SharedDependencyIsCycle | src/rosdep2/dependency_graph.py:48-52 | because the traveled list is never shortened, a key reached along two paths (`a` on `b` and `c`, both on `d`) is reported as a cycle at `d` |
| DependencyGraph.FirstMissing | src/rosdep2/dependency_graph.py:55-60 | no key is reported exactly when every dependency of the listed keys is a key of the graph; a reported key is missing and is a dependency of one of them |
| DependencyGraph.MarkNonRoots | src/rosdep2/dependency_graph.py:58-61 | a key stays a root exactly when it was one and no key lists it as a dependency; installers, packages, dependencies and the iteration order are unchanged |
| DependencyGraph.CheckCycles | src/rosdep2/dependency_graph.py:62-64 | the pass succeeds exactly when the cycle check from each key, with an empty traveled list, succeeds |
| DependencyGraph.Validate | src/rosdep2/dependency_graph.py:54-64 | validation succeeds exactly when every dependency is a key and no key's cycle check fails; a `KeyError` names a missing dependency; success yields the graph with non-roots marked |
| DependencyGraph.ValidateAsWritten | src/rosdep2/dependency_graph.py:54-64 | under Python 3, validation raises `AttributeError` exactly when some key has a dependency; a graph without dependencies validates unchanged, as `Validate` does |
| DependencyGraph.NoDependencyValidates | src/rosdep2/dependency_graph.py:54-64 | a graph in which no key has a dependency passes validation and comes back unchanged |
| DependencyGraph.HasKeyRejectsValidGraph | src/rosdep2/dependency_graph.py:54-64 | the graph `a` on `b`, complete and without a cycle, is accepted by `Validate` and rejected with `AttributeError` under Python 3 |
| DependencyGraph.PostOrder | src/rosdep2/dependency_graph.py:81-86 | the listing for a key ends with that key and holds only keys of the graph |
| DependencyGraph.PostOrderAll | src/rosdep2/dependency_graph.py:83-84 | the listings of the dependencies in order include every one of those dependencies |
| DependencyGraph.PostOrderFresh | src/rosdep2/dependency_graph.py:81-86 | the listing for a key names each key the cycle check newly traveled from it, each exactly once |
| DependencyGraph.PostOrderDepsFirst | src/rosdep2/dependency_graph.py:81-86 | in the listing for a key, every dependency of every listed key comes at an earlier position |
| DependencyGraph.RootListing | src/rosdep2/dependency_graph.py:70-73 | every root among the keys is in the concatenated listing, and only keys of the graph are |
| DependencyGraph.ItemsOfContents | src/rosdep2/dependency_graph.py:86 | an entry is listed exactly when it is the `(installer, packages)` pair of one of the listed keys |
| DependencyGraph.MarkingKeepsItems | src/rosdep2/dependency_graph.py:61 | marking non-roots changes no key's `(installer, packages)` pair |
| DependencyGraph.GetOrderedUninstalled | src/rosdep2/dependency_graph.py:66-79 | fails exactly when validation fails, with validation's error; otherwise it is the pairs of the roots' listings with later repeats dropped |
| DependencyGraph.OrderedUninstalledContents | src/rosdep2/dependency_graph.py:66-79 | the result lists no pair twice, and lists a pair exactly when it belongs to a key reachable from a root |
| DependencyGraph.ListingDepsFirst | src/rosdep2/dependency_graph.py:70-73 | in the listing of all roots, every dependency of a listed key is listed before it |
| DependencyGraph.OrderedUninstalledDepsFirst | src/rosdep2/dependency_graph.py:66-86 | when distinct keys have distinct pairs, the pair of each dependency of a listed key comes before that key's own pair in the result |
| DependencyGraph.MissingMeansIncomplete | src/rosdep2/dependency_graph.py:54-60 | the search for an undefined dependency finds none exactly when every dependency has a definition, and what it finds is a dependency of some key |
| DependencyGraph.VisitAvoidsTraveled | src/rosdep2/dependency_graph.py:48-52 | a visit that succeeds never meets, along any dependency path from its start, a key already on the traveled list |
| SourcesList.SplitScheme | src/rosdep2/sources_list.py:94 | the scheme, a colon when there is a scheme, and the rest put back together are the URL |
| SourcesList.SplitUrl | src/rosdep2/sources_list.py:94 | the only parse failure is the IPv6 bracket `ValueError`, naming the URL |
| SourcesList.SplitUrlCompose | src/rosdep2/sources_list.py:94-95 | `scheme://host/path`, with no delimiter in the host and none of `?#;` in the path, parses back into the lower-cased scheme, the host and the path |
| SourcesList.SplitUrlPlain | src/rosdep2/sources_list.py:94-95 | a URL with no scheme, no `//` and none of `?#;` is all path, so it has neither scheme nor host |
| SourcesList.NewDataSource | src/rosdep2/sources_list.py:84-104 | a source is built exactly when the type is `yaml`, the URL has a scheme, a host and a path other than `''` and `'/'`, and the tags are a list; the type is checked first and the tags last; a built source keeps all four arguments |
| SourcesList.SameSourceIsEquality | src/rosdep2/sources_list.py:106-110 | comparing type, tags, url and origin is exactly equality of sources |
| SourcesList.ToString | src/rosdep2/sources_list.py:112-116 | the source's line, preceded by `[origin]:` and a newline exactly when the origin is a non-empty string |
| SourcesList.Matches | src/rosdep2/sources_list.py:126-133 | a source matches exactly when every one of its tags is among the matcher's |
| SourcesList.MatchesMonotone | src/rosdep2/sources_list.py:126-133 | a source without tags matches any matcher, and a match survives adding tags to the matcher |
| SourcesList.ParseLine | src/rosdep2/sources_list.py:190-199 | a significant line is accepted exactly when it has at least two space-separated fields that make a valid source; that source has field 0 as type, field 1 as URL, the rest as tags and the given origin; a rejection carries the origin and the line |
| SourcesList.ParseLines | src/rosdep2/sources_list.py:185-200 | the lines parse exactly when every line is blank, a comment or accepted |
| SourcesList.ParseLinesFailsAtFirst | src/rosdep2/sources_list.py:185-199 | the error raised is the error of the first line not accepted |
| SourcesList.ParseSourcesData | src/rosdep2/sources_list.py:166-200 | the data parses exactly when each of its newline-separated lines is blank, a comment or accepted |
| SourcesList.ParseLinesInOrder | src/rosdep2/sources_list.py:185-200 | a successful parse yields one source per significant line, in order, each the parse of that stripped line |
| SourcesList.ParseLineOfSource | src/rosdep2/sources_list.py:166-200 | a valid source with no whitespace in its URL or tags prints as a line that parses back into the same source with the parser's origin |
| SourcesList.ParseSingleLine | src/rosdep2/sources_list.py:185-200 | data of one significant line parses into that line's source alone |
| SourcesList.ParseSourcesFile | src/rosdep2/sources_list.py:202-214 | an unreadable file is an `InvalidSourcesFile` naming the path; a readable one is its contents parsed with the path as origin |
| SourcesList.ParseFiles | src/rosdep2/sources_list.py:233-236 | the files parse exactly when each of them parses |
| SourcesList.ParseSourcesList | src/rosdep2/sources_list.py:216-236 | a missing directory gives no sources; otherwise the listing parses exactly when each listed file does |
| SourcesList.ListingOrderIrrelevant | src/rosdep2/sources_list.py:232-234 | the order in which the directory lists its files does not change the result, because the names are sorted |
| RospkgLoader.ParseVersion | src/rosdep2/rospkg_loader.py:42-68 | a parse either yields a parsed version or raises `ValueError` naming the text |
| RospkgLoader.ParseThreeParts | src/rosdep2/rospkg_loader.py:67-68 | `M.N.P` written in digits parses to those three numbers without a pre-release |
| RospkgLoader.ParseTwoParts | src/rosdep2/rospkg_loader.py:67-68 | `M.N` parses to the same version as `M.N.0` |
| RospkgLoader.Compare | src/rosdep2/rospkg_loader.py:71-86 | two versions compare exactly when both were parsed (`StrictVersion(None)` cannot be compared), with a result of -1, 0 or 1 |
| RospkgLoader.CompareAntisymmetric | src/rosdep2/rospkg_loader.py:71-86 | swapping the versions negates the comparison, and it is 0 exactly for equal versions |
| RospkgLoader.PreReleaseFirst | src/rosdep2/rospkg_loader.py:79-86 | a pre-release sorts before the release with the same numbers |
| RospkgLoader.ValidTags | src/rosdep2/rospkg_loader.py:93-95 | a tag is collected exactly when the dependency sets it |
| RospkgLoader.IsVersionMatching | src/rosdep2/rospkg_loader.py:66-86 | unparsable versions raise; equal tags other than `version_eq` agree; a lower bound against an upper bound, either way round, clashes; a bound against `version_eq` compares the versions; two `version_eq` agree exactly on equal versions; the function falls off its end (`None`) exactly for `version_eq` first against another tag, or `version_lt` against `version_lte` |
| RospkgLoader.TagPairs | src/rosdep2/rospkg_loader.py:100-103 | the nested loops visit exactly the pairs of a tag of the first list with a tag of the second |
| RospkgLoader.ScanPairs | src/rosdep2/rospkg_loader.py:100-106 | the result is the bare "consistent" exactly when no pair raises or is exactly `False`; a reported pair clashes and carries both dependencies' versions |
| RospkgLoader.IsVersionConsistent | src/rosdep2/rospkg_loader.py:90-106 | as written: a first dependency without requirements is always consistent, whatever the second has |
| RospkgLoader.SecondTagsIgnored | src/rosdep2/rospkg_loader.py:96-97 | as written, `>= 1.0` against `< 0.5` is reported consistent, because the second dependency is read under the first one's tags |
| RospkgLoader.IsVersionConsistentFixed | src/rosdep2/rospkg_loader.py:90-106 | corrected: consistent exactly when every pair of a requirement of the first with a requirement of the second agrees; the only exception is `ValueError` |
| RospkgLoader.SecondTagsChecked | src/rosdep2/rospkg_loader.py:90-106 | corrected, `>= 1.0` against `< 0.5` is reported as that clashing pair |
| RospkgLoader.UniquenessCheck | src/rosdep2/rospkg_loader.py:125-146 | dependencies keep their names and positions; each ends with at most one requirement; a dependency is either unchanged or has all requirements cleared |
| RospkgLoader.UniquenessIdempotent | src/rosdep2/rospkg_loader.py:125-146 | a second pass changes nothing |
| RospkgLoader.UniquenessKeepsSingle | src/rosdep2/rospkg_loader.py:140 | a dependency with at most one requirement is kept as it is |
| RospkgLoader.FirstDuplicate | src/rosdep2/rospkg_loader.py:150-153 | the first same-name pair in loop order: nothing exactly when all names differ; otherwise an earlier and a later index with one name, no same-name index between them, and no same-name pair starting earlier |
| RospkgLoader.FaultyRedundancy | src/rosdep2/rospkg_loader.py:149-160 | as written: dependencies with distinct names pass; at the first same-name pair, a consistent pair raises `TypeError` from unpacking the bare `True`, an inconsistent pair is reported without raising, and a `ValueError` of the consistency test propagates |
| RospkgLoader.RepeatedDependencyRaises | src/rosdep2/rospkg_loader.py:154-155 | as written, a dependency listed twice without requirements raises `TypeError` from unpacking the bare `True`; the corrected check reports nothing |
| RospkgLoader.DuplicatePairs | src/rosdep2/rospkg_loader.py:150-153 | exactly the index pairs `i < j` whose names agree |
| RospkgLoader.FaultyRedundancyFixed | src/rosdep2/rospkg_loader.py:149-160 | corrected: nothing is reported exactly when every same-name pair is consistent; the only exception is `ValueError` |
| RospkgLoader.DependencyVersionCheck | src/rosdep2/rospkg_loader.py:62-64 | as written: a passing check hands back the dependencies with the uniqueness check's clearing applied; distinct names always pass; a repeated name among entries none of which has exactly one requirement raises `TypeError` |
| RospkgLoader.RepeatedUnversionedRaises | src/rosdep2/rospkg_loader.py:149-160 | after the uniqueness check, a repeated name among entries none of which has exactly one requirement makes the redundancy check as written raise `TypeError` |
| RospkgLoader.DependencyVersionCheckFixed | src/rosdep2/rospkg_loader.py:62-64 | corrected: a passing check hands back the uniqueness check's result; the only exception is `ValueError`; distinct names always pass |
| RospkgLoader.VersionCheckDiscrepancy | src/rosdep2/rospkg_loader.py:154-155 | `foo` listed twice without requirements: the check as written raises `TypeError`, the corrected one passes the list back unchanged |
| RospkgLoader.GetLoadableViews | src/rosdep2/rospkg_loader.py:212-216 | the views are exactly the stacks and the default view |
| RospkgLoader.LoadView | src/rosdep2/rospkg_loader.py:183-210 | a loaded view is left alone; otherwise loading succeeds exactly for a loadable view not named `invalid`; an unknown view is not found under its own name; a new view gets no data, the underlay key as its only dependency when that is set, and origin `<nodata>`; other views are untouched |
| RospkgLoader.LoadViewIdempotent | src/rosdep2/rospkg_loader.py:196-197 | loading a view twice is loading it once |
| RospkgLoader.GetViewKey | src/rosdep2/rospkg_loader.py:281-291 | a package maps to the default view, and anything else is not found |
| RospkgLoader.GetRosdeps | src/rosdep2/rospkg_loader.py:253-279 | fails exactly for a name that is neither package nor stack, or a catkin package whose version check as written fails, with that check's exception, so a catkin package listing a dependency twice without requirements raises `TypeError`; a catkin package gives its dependency names in order, with the dependencies exactly when asked; a legacy package gives its manifest rosdeps; a stack gives none |
| RospkgLoader.FirstDuplicateFrom | src/rosdep2/rospkg_loader.py:150-153 | no pair exactly when all names from the position on differ; otherwise the first index whose name repeats and its next repetition |
| Gbpdistro.MentionsRelease | src/rosdep2/gbpdistro_support.py:41 | `release in t` is defined exactly for a mapping, a list or a string, and for a mapping it is key membership |
| Gbpdistro.Matching | src/rosdep2/gbpdistro_support.py:41 | the filter succeeds exactly when every element supports the membership test, otherwise it is a `TypeError`; it keeps exactly the elements that mention the release |
| Gbpdistro.MatchingFirst | src/rosdep2/gbpdistro_support.py:41-46 | the first kept element is an element of the targets file with no mentioning element before it |
| Gbpdistro.ReleaseTargets | src/rosdep2/gbpdistro_support.py:41-46 | "no information for release" exactly when no element mentions the release; otherwise the targets are a mentioning mapping's value for the release |
| Gbpdistro.TargetsOf | src/rosdep2/gbpdistro_support.py:64-70 | a list of targets is accepted exactly when all its items are strings, and then gives exactly those strings; a non-string item is an invalid target spec |
| Gbpdistro.DebName | src/rosdep2/gbpdistro_support.py:61-62 | the package name starts with `ros-`, has no underscore and is five characters longer than release and key together |
| Gbpdistro.DebNamePlain | src/rosdep2/gbpdistro_support.py:61-62 | without underscores in release and key the name is `ros-<release>-<key>` |
| Gbpdistro.RepoRules | src/rosdep2/gbpdistro_support.py:55-72 | the rules name only Ubuntu, under it exactly the repository's targets, each the apt rule for the package |
| Gbpdistro.ConvertRepo | src/rosdep2/gbpdistro_support.py:51-72 | a non-mapping repository is an invalid repo spec and a missing `name` a missing key; a converted repository is keyed by its name and carries the rules for its targets, the release's own when it says `all` |
| Gbpdistro.AllMeansReleaseTargets | src/rosdep2/gbpdistro_support.py:65-66 | a repository targeting `all` gets exactly the release's targets |
| Gbpdistro.ConvertRepos | src/rosdep2/gbpdistro_support.py:49-72 | the loop succeeds exactly when every repository converts, and the keys are exactly those already present and the repositories' names |
| Gbpdistro.ConvertReposGenerated | src/rosdep2/gbpdistro_support.py:55-72 | every generated key holds only Ubuntu apt rules for its own package name |
| Gbpdistro.ConvertReposLastWins | src/rosdep2/gbpdistro_support.py:54-55 | a key holds the rules of the last repository that names it |
| Gbpdistro.KeptAfter | src/rosdep2/gbpdistro_support.py:54-55 | a key that no repository names keeps its earlier value |
| Gbpdistro.GbprepoToRosdepData | src/rosdep2/gbpdistro_support.py:26-75 | targets that are not a list and a distribution that is not a mapping are rejected, in that order, then a missing `release-name`; on success the release name is a string and every key has the generated shape |
| Gbpdistro.GbprepoKeys | src/rosdep2/gbpdistro_support.py:26-73 | for a distribution whose repositories all convert, the result defines exactly one key per repository name |
| CatkinPackages.SetWorkspacePackages | src/rosdep2/catkin_packages.py:64-66 | the workspace becomes the given list, or empty for `None`; the other records are untouched |
| CatkinPackages.AddWorkspacePackages | src/rosdep2/catkin_packages.py:74-77 | the workspace gains exactly the name, appended at the end only when absent, so a duplicate-free list stays duplicate-free; the other records are untouched |
| CatkinPackages.AddWorkspaceIdempotent | src/rosdep2/catkin_packages.py:76-77 | adding a package twice is adding it once |
| CatkinPackages.AddReplacedPackages | src/rosdep2/catkin_packages.py:85-92 | the replaced keys grow by exactly the given keys; an already replaced key keeps its replacer and a new one gets this package; the other records are untouched |
| CatkinPackages.AddConflictedPackages | src/rosdep2/catkin_packages.py:95-99 | the conflicted keys grow by exactly the given keys, the first package recorded for a key winning; the other records are untouched |
| CatkinPackages.RecordFirstIdempotent | src/rosdep2/catkin_packages.py:85-99 | recording the same keys again, for any package, changes nothing |
| CatkinPackages.FirstReplacerWins | src/rosdep2/catkin_packages.py:88-92 | of two packages replacing one key, the one added first keeps it |
| CatkinPackages.RecordIsAdding | src/rosdep2/catkin_packages.py:38-99 | the recording done during a crawl is the same as calling the two public update functions for each package in turn |
| CatkinPackages.FindCatkinPackagesIn | src/rosdep2/catkin_packages.py:19-61 | a missing path raises `OSError` with the path in its message; a cached directory answers from the cache and changes nothing; a directory without packages gives none and records nothing; otherwise the package names, in order, are returned and cached and their replacements and conflicts recorded |
| CatkinPackages.FindCached | src/rosdep2/catkin_packages.py:31-56 | a second look at the same directory gives the same names and state, whatever a new crawl would find |
| CatkinPackages.CrawlFirstWins | src/rosdep2/catkin_packages.py:40-47 | during a crawl the first package replacing a new key keeps it |
| CatkinPackages.RecordKeeps | src/rosdep2/catkin_packages.py:42-45 | a replacement recorded earlier survives any crawl |
| Meta.Fresh | src/rosdep2/meta.py:91-96 | a new database has loaded nothing |
| Meta.Set | src/rosdep2/meta.py:98-103 | the category is loaded with a wrapper of the data and the writing version, and the wrapper is written to the category's file |
| Meta.Get | src/rosdep2/meta.py:105-113 | a loaded category gives its data without change; one that is not loaded gives its file's data when the file exists, otherwise the default |
| Meta.LoadFromCache | src/rosdep2/meta.py:115-121 | loading keeps the cache directory, and leaves an already loaded category alone |
| Meta.GetAfterSet | src/rosdep2/meta.py:98-113 | reading a category after setting it gives what was set |
| Meta.LaterSetWins | src/rosdep2/meta.py:98-113 | of two settings of a category the later one is read |
| Meta.GetUnknown | src/rosdep2/meta.py:105-121 | a fresh database reads a category without a file as the default |
| Meta.FreshSeesDisk | src/rosdep2/meta.py:98-121 | a fresh database over the same directory reads what an earlier one set |
| Meta.SetKeepsOthers | src/rosdep2/meta.py:98-121 | setting one category leaves the value read for another alone, when their file names differ |
| CatkinPackages.RecordFirst | src/rosdep2/catkin_packages.py:85-92 | every recorded key stays with its first package and every new key is recorded for the given one; no other key appears |
| Cli.SplitEach | src/rosdep2/main.py:417-419 | no resulting piece contains a space |
| Cli.SplitEachKeeps | src/rosdep2/main.py:242 | a list whose elements have no spaces comes back unchanged |
| Cli.SplitEachConcat | src/rosdep2/main.py:242 | splitting a concatenation is concatenating the splits |
| Cli.Pairs | src/rosdep2/main.py:243 | the pairs exist exactly when every token holds exactly one `:`, and then there is one pair per token, in order, of its stripped parts |
| Cli.ToMap | src/rosdep2/main.py:243 | the dictionary's keys are exactly the pairs' keys |
| Cli.ToMapLastWins | src/rosdep2/main.py:243 | a key holds the value of its last pair |
| Cli.KeyOrder | src/rosdep2/main.py:243 | the dictionary's iteration order lists each pair key once and nothing else |
| Cli.KeyListToDict | src/rosdep2/main.py:235-245 | the list converts exactly when every space-separated token holds exactly one `:`; otherwise a `UsageError` quoting the tokens; the order and the values name the same keys, each once |
| Cli.KeyListSingle | src/rosdep2/main.py:235-245 | one well-formed `key:value` token gives exactly that entry |
| Cli.StrToBool | src/rosdep2/main.py:248-256 | accepted exactly for `yes`, `true`, `no` and `false` in any letter case; true exactly for the first two; otherwise a `UsageError` quoting the lower-cased text |
| Cli.StrToBoolCaseInsensitive | src/rosdep2/main.py:250 | the answer depends only on the lower-cased text |
| Cli.AsRoot | src/rosdep2/main.py:429 | succeeds exactly when every value reads as a boolean, and then maps exactly the dictionary's keys to those booleans |
| Cli.ConvertOsOverride | src/rosdep2/main.py:555-570 | no override for an absent or empty option; an option without `:` is a `UsageError`; an override is the option split at its first `:` |
| Cli.ConvertOsOverrideRoundTrip | src/rosdep2/main.py:555-570 | `name:version` with no `:` in the name gives back exactly that name and version, even when the version holds a `:` |
| Cli.GetKeys | src/rosdep2/main.py:689-694 | succeeds exactly when every package's rosdeps can be looked up, and gives exactly the union of their keys; a failure names a package that cannot be |
| Cli.Dispatch | src/rosdep2/main.py:421-469 | no arguments is "Please enter a command"; a selected command is known and gets its handler: key commands get the keys and refuse `--all`, argument-free commands get none, and package commands get the packages or, with `--all`, none |
| Cli.DispatchFailsOnlyOnArguments | src/rosdep2/main.py:438-469 | for a known command with well-formed `--as-root` values, dispatch fails exactly for the argument combinations its handler refuses |
| Distro.Truncate | distro.py:175-233 | the kept version is the longest prefix before the first `-`: it is a prefix, has no `-`, and is followed by `-` when shorter |
| Distro.MakePackage | distro.py:224-234 | the package keeps its name, repository and URL, keeps the version up to the first `-`, and has its dependencies preset exactly when the version is empty |
| Distro.RepoPackages | distro.py:56-61 | one package per listed name, in order, each made with the repository's URL and version; a repository without `packages` lists itself |
| Distro.Build | distro.py:46-62 | the repositories are exactly the listed repository names |
| Distro.BuildLastWins | distro.py:58-61 | a package name listed by several repositories belongs to the last listing of it |
| Distro.UnaryRepository | distro.py:56-61 | a repository without `packages` that no later repository lists by name is a package of its own, with the repository's URL and version |
| Distro.GetDependencies | distro.py:236-259 | the first call on a package: preset dependencies give empty build, test and run lists; otherwise the fetched `package.xml` lists, and a fetch failure is a `BuildException` |
| Distro.GetDependenciesHeld | distro.py:236-259 | with the `depends1` memo: a true memo (the string "Failure" included) is returned without a download; otherwise the download is stored and returned, and a failed one stores "Failure" and raises; on the constructor's memo it agrees with `GetDependencies` |
| Distro.Depends1Held | distro.py:117-126 | `depends1` with the memos: on an unread package it is `Depends1`; a package holding "Failure" raises `TypeError`; a `BuildException` leaves "Failure"; a success is the last type's list of the dictionary the memo then holds; other packages' memos are unchanged |
| Distro.Depends1AfterFailure | distro.py:236-259 | after a failed download, the next `depends1` of that package raises `TypeError` with any types and any server answer, where the first raised `BuildException` |
| Distro.Depends1Remembers | distro.py:236-238 | a successful `depends1` is answered again, unchanged, whatever the server answers then |
| Distro.DependsOnEachHeld | distro.py:144-156 | `depends_on1`'s loop with the memos: on unread packages it is `DependsOnEach`; it fails whenever a package holds "Failure", and its `TypeError` comes only from such a package |
| Distro.DependsOnAfterFailure | distro.py:144-156 | after a failed download of one package, a later `depends_on1` over a dictionary holding it fails |
| Distro.LastOfTypes | distro.py:124-128 | an empty type list raises `UnboundLocalError`; otherwise every type must be present and the result is the last type's list, and a failure is the `KeyError` of a missing type |
| Distro.Depends1 | distro.py:117-128 | no types raises `UnboundLocalError`; an unknown package is a `KeyError`; otherwise it succeeds exactly when the dependencies can be read and hold every type, giving the last type's list |
| Distro.Depends1Each | distro.py:118-122 | for a list of packages, one result per package in order, failing exactly when one of them fails |
| Distro.TypesNaming | distro.py:153-156 | every type must be present, a missing one raising its `KeyError`; the package is collected, once per type that names the dependency, exactly when one of them does |
| Distro.DependsOn1 | distro.py:144-157 | with no types nothing is read and nothing is found; otherwise it succeeds exactly when every package's dependencies can be read, and a package is reported exactly when it names the given one under one of the types |
| Distro.WalkAllFromEmpty | distro.py:132-169 | the walk from an empty result gives distinct known packages, each reached from a given package, and holds every known package named by a given or reached one |
| Distro.DependsIsClosure | distro.py:132-141 | `depends` with a fresh result: distinct packages of the distribution, each reached from a given package, and every dependency in the distribution of a given or listed package is listed |
| Distro.DependsOnIsClosure | distro.py:160-169 | `depends_on` with a fresh result: distinct packages, each reached from a given one, and every package naming a given or listed package under the types is listed |
| Distro.DependsCalls | distro.py:132-141 | calls made without `res` share one default list: the first call's result is `depends` from that shared list, and there is one result per call |
| Distro.DependsDefaultLeaks | distro.py:132 | as written, a second call without `res` returns the first call's packages although its own packages depend on nothing |
| Distro.ReadLine | distro.py:204-211 | a line whose key is not one of the three upstream keys changes nothing; one that is needs a ` = ` separator and sets its field to the text after it |
| Distro.ReadLinesFails | distro.py:204-211 | reading fails exactly when some upstream-key line has no ` = ` |
| Distro.ReadLinesLastWins | distro.py:204-211 | a field holds the value of the last line with its key |
| Distro.ReadLinesUnset | distro.py:204-211 | a field whose key no line has keeps its previous state |
| Distro.UpstreamOf | distro.py:202-221 | a read upstream always has a type and a version |
| Distro.UpstreamNeedsType | distro.py:212-220 | without an `upstreamtype` line the read fails, with `KeyError('type')` when the lines themselves are well-formed |
| Distro.GetUpstream | distro.py:194-222 | the first call on a repository: a failed download is a `URLError` for the `bloom.conf` URL; otherwise the upstream is read from the downloaded text |
| Distro.StoredUpstream | distro.py:201-221 | what `self.upstream` holds after reading: the record of a successful read; nothing when reading fails before the assignment |
| Distro.UpstreamKeptOnFailure | distro.py:211-221 | a raising read still stores its record exactly when the version is set without a type, or the type is svn without a URL, and then the error is `KeyError('type')` or `KeyError('url')` |
| Distro.GetUpstreamHeld | distro.py:194-222 | with the `upstream` memo: a stored record is returned without a download; on an empty memo it is `GetUpstream`; a success is stored; a changed memo is what `StoredUpstream` keeps |
| Distro.UpstreamAfterFailure | distro.py:194-222 | after a first call that raises `KeyError('type')` or `KeyError('url')` but stored its record, the next call returns that record without a download |
| Distro.UpstreamRoundTrip | distro.py:202-221 | a `bloom.conf` written from a URL, a type and a version reads back as exactly those three fields, with `master` or `default` for an empty git or hg version and `/trunk` appended for svn |
| Distro.ReleaseEntry | distro.py:261-265 | a release entry is a git entry whose local name and URI have the package's name and URL lengths |
| Distro.LatestEntry | distro.py:267-269 | the latest entry is a git entry for the package's name and URL |
| Distro.ReleaseTagRoundTrip | distro.py:261-269 | when no part holds `?` or `/`, the release entry keeps the name and URL, its version splits on `/` into `release`, the name and the requested or package version, and extends the latest entry's version |
| Distro.RepoReleaseEntries | distro.py:182-186 | one release entry per package of the repository, in order |
| Distro.RepoLatestEntries | distro.py:188-192 | one latest entry per package of the repository, in order |
| GenDistro.GetPackageNames | src/rosinstall_generator/distro.py:49-59 | a `KeyError` exactly when a release package names an unknown repository; otherwise a package is released exactly when its repository has a release with a version, unreleased exactly when it has a release without one, and neither without a release |
| GenDistro.Span | src/rosinstall_generator/distro.py:148 | the longest run of characters of the class from a position: all of them in the class and the next one not |
| GenDistro.ParseGitUrl | src/rosinstall_generator/distro.py:148-151 | a match gives a non-empty server of `[\w.-]` characters and a path of `[\w/-]` characters |
| GenDistro.ParseGitUrlSound | src/rosinstall_generator/distro.py:148-151 | every match is the URL built from some scheme or `git@` prefix, the server, `:` or `/`, the path and an optional `.git`, possibly followed by one newline, which `$` lets through |
| GenDistro.ParseGitUrlCompose | src/rosinstall_generator/distro.py:148-151 | a URL built from well-formed parts matches with exactly that server and path, with or without one final newline |
| GenDistro.ServerKey | src/rosinstall_generator/distro.py:157-158 | no key exactly when none of the tarball hosts occurs in the server; otherwise the first host, in the template order, that does |
| GenDistro.TarVersion | src/rosinstall_generator/distro.py:162 | the tarball version holds no `/` |
| GenDistro.GenerateEntry | src/rosinstall_generator/distro.py:141-176 | the entry keeps the local name; with `tar`, a matching URL and a known host it is the host's tarball entry; otherwise it is a checkout of the URL at the release tag under the VCS type, `git` by default |
| GenDistro.CheckoutFallback | src/rosinstall_generator/distro.py:164-176 | without `tar`, or with an unparsable URL, the entry is a git checkout at the release tag |
| GenDistro.TarEntryOfParts | src/rosinstall_generator/distro.py:148-163 | a well-formed `.git` URL on a known host gives that host's tarball entry |
| GenDistro.FallbackOfParts | src/rosinstall_generator/distro.py:157-176 | a well-formed `.git` URL on an unknown host falls back on a git checkout |
| GenDistro.TarballFromGithub | test/test_distro.py:84-86 | the case `test_generate_tar` checks: a GitHub `https` URL gives the `/archive/<tag>.tar.gz` tarball |
| GenDistro.TarballFromGitlabSsh | test/test_distro.py:96-100 | the case `test_generate_tar_from_ssh` checks: a GitLab `git@` URL gives the `repository/archive.tar.gz?ref=<tag>` tarball |
| GenDistro.NoTarballForUnknownServer | test/test_distro.py:78-82 | the first case of `test_generate_tar`: on the `example.com` host a tarball request gives a git checkout of the URL as given |
| GenDistro.RepositoryOf | src/rosinstall_generator/distro.py:130 | no repository exactly when the package is not released; otherwise the repository the package lists |
| GenDistro.LocalName | src/rosinstall_generator/distro.py:134-136 | the local name ends with the package name; it is the package name exactly when flat or the repository holds only that package, and otherwise `repo/package` |
| GenDistro.GenerateForPackage | src/rosinstall_generator/distro.py:129-138 | an unknown package is a `KeyError`; an entry is generated exactly when the package's repository has a release with a version, and it is the entry for the local name, the release URL and the release tag |
| GenDistro.EachEntry | src/rosinstall_generator/distro.py:124-125 | all entries are generated exactly when each is, one per name in order; a failure is one of the names' failures |
| GenDistro.GenerateRosinstall | src/rosinstall_generator/distro.py:122-126 | the entries of the packages in order, failing exactly when one package fails, with that package's error |
| GenDistro.Collect | src/rosinstall_generator/distro.py:85-89 | the result holds what was collected before; a failure names one of the packages |
| GenDistro.GetRecursiveDependencies | src/rosinstall_generator/distro.py:74-93 | none of the given packages is in the result; a failure is the `RuntimeError` for one of them |
| GenDistro.RecursiveDependenciesAvoidExcludes | src/rosinstall_generator/distro.py:75-87 | with a walker that respects its ignore set, no excluded package is in the result |
| GenDistro.RecursiveDependenciesAreReach | src/rosinstall_generator/distro.py:74-93 | with a walker that filters its result by the ignore set, the result is everything reached from the packages, less the excludes and the packages themselves, whatever order the packages come in |
| GenDistro.GetRecursiveDependenciesOn | src/rosinstall_generator/distro.py:96-119 | a failure is the `get_package_names` error (only with a limit) or the walker's uncaught `AssertionError`; without a limit and with a walker that never fails it succeeds; none of the given packages is in the result |
| GenDistro.CollectOn | src/rosinstall_generator/distro.py:114-117 | the result holds what was collected before; a failure is the walker's `AssertionError`, not caught |
| GenDistro.CollectOnIsCollect | src/rosinstall_generator/distro.py:114-117 | the reverse loop and the forward loop collect the same packages and stop at the same walk; the forward loop's `RuntimeError` wraps the message the reverse loop raises bare, for one of the packages |
| GenDistro.RecursiveDependenciesOnWithoutLimit | src/rosinstall_generator/distro.py:96-119 | without a limit, the reverse walk succeeds exactly when the forward walk over the same walker does, with the same result, and otherwise fails with an `AssertionError` |
| GenDistro.RecursiveDependenciesOnWithinLimit | src/rosinstall_generator/distro.py:105-108 | with a limit and a walker that respects its ignore set, every released package in a successful result is within the limit |
| GenDistro.CollectAvoidsExcludes | src/rosinstall_generator/distro.py:85-87 | with a walker that respects its ignore set, no excluded package enters the collected set |
| GenDistro.CollectIsReach | src/rosinstall_generator/distro.py:85-89 | with a walker that filters its result by the ignore set, ignoring what was already collected changes nothing: the loop adds everything reached from the packages, less the excludes |
| GenDistro.CollectTotal | src/rosinstall_generator/distro.py:85-89 | a walker that never fails makes both loops never fail |
| Generator.SplitSpecialKeywords | src/rosinstall_generator/generator.py:65-74 | the names split into those that are not `ALL` or `RPP` and the keywords among them; nothing is lost or added |
| Generator.ClassifyRepoNames | src/rosinstall_generator/generator.py:77-87 | the given repository names split into those the distribution has and the unknown ones |
| Generator.MakeNames | src/rosinstall_generator/generator.py:171-173 | the wet and dry sets hold exactly the given names |
| Generator.Update | src/rosinstall_generator/generator.py:175-177 | each set of the result is the union of the two |
| Generator.CheckReleasedLeft | src/rosinstall_generator/generator.py:272-273 | the `RuntimeError` is raised exactly when no wet or dry name is left and no repository was given; otherwise the names pass unchanged |
| Generator.SelectNames | src/rosinstall_generator/generator.py:308-320 | a wet name is kept exactly when requested, not excluded and not `dry_only`; a dry name exactly when requested, not excluded and not dropped by `wet_only` without dependencies; the `RuntimeError` exactly when both sets end up empty and no repository was given |
| Generator.IntersectWet | src/rosinstall_generator/generator.py:357-369 | without wet `deps_up_to` names the wet set is emptied; otherwise it is the packages depending on them together with the requested names already in the result |
| Generator.IntersectDry | src/rosinstall_generator/generator.py:371-382 | with `wet_only`, or with neither wet packages left nor dry `deps_up_to` names, the dry set is emptied; otherwise it is the stacks depending on them together with the requested stacks already in the result |
| Generator.IntersectWetNarrows | src/rosinstall_generator/generator.py:359-366 | with a reverse walker that honours its ignore set, every released package left after a successful wet intersection was in the result before it |
| Generator.DropRequested | src/rosinstall_generator/generator.py:385-387 | with `deps_only` no requested name remains; otherwise nothing is dropped |
| Generator.FilterBuildType | src/rosinstall_generator/generator.py:390-402 | without either flag nothing is filtered; otherwise a package stays exactly when its manifest parses and its build type is `catkin` exactly when `catkin_only` is set |
| Generator.BuildTypeFiltersPartition | src/rosinstall_generator/generator.py:390-402 | the `catkin_only` and `non_catkin_only` results are disjoint and together are the packages with a valid manifest |
| Generator.RepoVersion | src/rosinstall_generator/generator.py:156-161 | with `version_tag` it needs a release version, returns its prefix before the first `-` and the release VCS type; otherwise it needs a source repository and returns its version and type |
| Generator.GenerateRosinstallForRepos | src/rosinstall_generator/generator.py:153-163 | one entry per repository in order, each the entry for the repository's name, source URL and chosen version and VCS type; a failure exactly when some repository lacks its version or its source, and then it is the `AttributeError` of the first such repository, the version being read before the source URL |
| Generator.FirstFailureCons | src/rosinstall_generator/generator.py:155-162 | the first repository lacking something in the tail after a convertible head is the first of the whole list |
| Generator.RepoEntryIsCheckout | src/rosinstall_generator/generator.py:153-163 | without tarballs a repository's entry is a checkout of its source URL under its name, with no `-` in a release tag and `git` as the default VCS type |
| Generator.InsertByName | src/rosinstall_generator/generator.py:449-453 | insertion adds exactly the one entry |
| Generator.InsertByNameSorted | src/rosinstall_generator/generator.py:449-453 | inserting into a sequence sorted by local name keeps it sorted |
| Generator.SortRosinstall | src/rosinstall_generator/generator.py:449-453 | the result is ordered by local name and is a permutation of the input |
| Generator.WithNameConcat | src/rosinstall_generator/generator.py:449-453 | the entries of one name in a concatenation are those of each part, in order |
| Generator.NoneNamedBelow | src/rosinstall_generator/generator.py:449-453 | a sorted sequence starting above a name holds no entry of that name |
| Generator.InsertByNameStable | src/rosinstall_generator/generator.py:449-453 | an inserted entry goes after every entry of the same local name |
| Generator.InsertFrontStable | src/rosinstall_generator/generator.py:449-453 | the front case of the stability step: an entry smaller than the first keeps the same-name order |
| Generator.InsertLaterStable | src/rosinstall_generator/generator.py:449-453 | the later case of the stability step: the property for the tail carries over to the whole |
| Generator.WithNameCons | src/rosinstall_generator/generator.py:449-453 | the entries of one name in a sequence with a new head: the head when it has that name, then the rest's |
| Generator.SortRosinstallStable | src/rosinstall_generator/generator.py:449-453 | the sort is stable: entries of the same local name keep their relative order |
| DryDistro.WetOfAdd | src/rosinstall_generator/dry_distro.py:53-60 | one more visited stack adds exactly its non-stack dependencies to the wet set |
| DryDistro.LeastAdd | src/rosinstall_generator/dry_distro.py:53-60 | adding a dependency of a collected stack keeps the collected set within every closed superset of the start |
| DryDistro.VisitDeps | src/rosinstall_generator/dry_distro.py:53-60 | after one stack's dependencies, its dry dependencies are collected, the work set only grows, the set stays within every closed superset, and the wet set gains exactly its non-stack dependencies |
| DryDistro.GetRecursiveDependencies | src/rosinstall_generator/dry_distro.py:46-62 | a `KeyError` exactly when a given name is not a stack, naming such a name; otherwise the dry result is the least set closed under stack dependencies that holds the given stacks, and the wet result is exactly their non-stack dependencies |
| DryDistro.GenerateRosinstall | src/rosinstall_generator/dry_distro.py:74-78 | a `KeyError` exactly when a name is not a stack, naming such a name; otherwise the first stack's entries open the result |
| DryDistro.GenerateRosinstallAppend | src/rosinstall_generator/dry_distro.py:74-78 | the entries of two lists of stacks are the entries of the first followed by those of the second |

## Left out

- Distro.GetDependencies: states the first call on a package; the `depends1` memo is modelled by `GetDependenciesHeld`, `Depends1Held` and `DependsOnEachHeld`. The closures `Depends`, `DependsOn` and their lemmas are stated on unread packages. Within one walk the memo changes nothing: a failed read ends the walk, and a successful one answers again the same (`Depends1Remembers`). Across calls it does: a package whose download failed then raises `TypeError` (`Depends1AfterFailure`).
- Distro.GetUpstream: states the first call on a repository; the `upstream` memo, stored before the type and svn checks, is modelled by `GetUpstreamHeld`, so a call after `KeyError('type')` or `KeyError('url')` returns the stored record (`UpstreamAfterFailure`).
- Threads and polling: the `Worker`/`ThreadPool` classes and the prefetch loops of `distro.py` (distro.py:16-44, 74-114). Their point is concurrency, and the model fetches dependencies through a parameter instead.
- Network and file I/O: `download_rosdep_data`, `update_sources_list`, `write_cache_file`, the `urlopen` calls, the YAML loading and dumping of caches, and `listdir` failures while reading the sources directory. Fetched and read contents are inputs.
- Console output: logging, warnings and `print`. The `main.py` `command_*` handlers and `rosdep_main` error printing are I/O around the modelled helpers.
- `RosdepLookup.create_from_rospkg` and `resolve_all`: they iterate a leftover variable and call undefined names. For the same reason `RosdepInstaller.get_uninstalled` is not modelled; it rests on `resolve_all`.
- `RosdepInstaller.install` and `install_resolved`: they read the undefined names `verbose` and `my_installer`.
- `rpm_detect_py`: it needs the Python `rpm` module. Only the command-line `rpm_detect_cmd` is modelled.
- `dep_version_check` of the rospkg loader: its only call site is commented out.
- The caching of `get_loadable_resources`.
- Regular expressions: `\w` is read as ASCII letters, digits and `_`, and `splitlines` splits on `'\n'` only.
- `Strings.IsSpace`: Python's `str.split()` and `strip()` also treat `\x1c` to `\x1f`, `\x85`, `\xa0` and the other Unicode spaces as white space; the model uses the six ASCII white-space characters only.
- `Strings.Lower`: folds ASCII letters only; Python's `lower()` also folds non-ASCII letters.
- `Slackware.SbotoolsDetect`: the `grep -i '^<name>'` pattern is read as a literal, ASCII case-insensitive prefix; regular-expression metacharacters in a package name and non-ASCII case folding are not interpreted.
- `Slackware.SbotoolsDetect`: models the Python 2 pipe, which carries bytes. Under Python 3, slackware.py:66 raises `TypeError` for any non-empty listing; `Slackware.SbotoolsDetectAsWritten` models that.
- The callables the platform files pass to `set_os_version_type` and `set_default_os_installer_key` would fail the registry's own checks. Each platform's choice is modelled instead as a plain function of the detected name, version and codename.
- `Installers.SetDefaultOsInstallerKey`: takes the chosen key rather than a callable. The registry's check of that key is modelled.
- `DependencyGraph.Validate`: `has_key` exists only in Python 2 and is read as membership. Under Python 3, dependency_graph.py:59 raises `AttributeError` instead; `DependencyGraph.ValidateAsWritten` models that.
- `Lookup.Merge`: nested dictionaries are not shared between views as Python would alias them; each view holds its own value.
- `Lookup.ViewLookup`: an undeclared key raises `KeyError` in the source. The model reports it directly as the `ResolutionError` ("Cannot locate rosdep definition") that `resolve` turns it into.
- `Gbpdistro.GbprepoToRosdepData`: a release name that is not a string is rejected with `TypeError`. Python accepts an integer, boolean or `None` release name, formatting it with `%s`; the model keeps string keys only and does not promise that conversion. Other value types fail in Python too, with a failure that differs by type.
- `Pip.GetPipCommand`: `ROS_PYTHON_VERSION` is a field of the environment, always set. The `KeyError` Python raises when the variable is unset is not modelled.
- `Gbpdistro.ConvertRepo`: a repository name that is not a string is rejected with `TypeError`. Python accepts an integer, boolean or `None` name, keys the data by it and formats it with `%s`; the model does not promise that conversion.
- `RospkgLoader.ParseVersion`: `StrictVersion` is a small stand-in, `major.minor[.patch]` with an optional `a`/`b` pre-release. It is not the distutils class.
- `SourcesList.SplitUrl`: `urlparse` is a stand-in restricted to the scheme, network location and path, the parts `DataSource` checks.
- `Brewmaker.LatestIndex`: `LooseVersion` is a total-preorder parameter rather than the distutils comparison.
- `Generator.FilterBuildType`: parsing a `package.xml` with catkin_pkg is an input manifest, either invalid or its list of `build_type` exports.
- `GenDistro.GetRecursiveDependencies`: the rosdistro walker, with its `limit_depth` and source variants, is a parameter. The walker's own traversal is not modelled.
- `GenDistro.GetRecursiveDependenciesOn`: the reverse walker is a parameter that either answers or raises an `AssertionError`. Its traversal is not modelled; the set algebra and the error path around it are.
- `Generator.SelectNames`: `from_paths`, `exclude_paths` and the `RPP` environment expansion scan the file system and `ROS_PACKAGE_PATH`. Their results are inputs.
- `RosdepModel.GetStackDependencies`: the source has no cycle guard, so the model requires acyclic data.
- `CatkinPackages.FindCatkinPackagesIn`: the crawl for `package.xml` files is a parameter.
- `Meta.Get`: the disk is a map from path to stored value. Pickling and hashing are not modelled; the hash of a category is a parameter.
- The Django views, the JavaScript front end, `old_distro.py`, the platform files other than the twelve modelled ones, and the legacy `src/rosdep` files other than `model.py` and `installers.py`. They are web glue, downloads, stubs, or files that do not parse.

## Findings

| source | as written | input that shows it | evidently intended | confidence | as-written member | corrected member |
|---|---|---|---|---|---|---|
| src/rosdep2/lookup.py:423-427 | `get_os_installer_keys` uses a `defaultdict`, so reading it registers an unknown OS. The following `get_default_os_installer_key` then returns `None` instead of raising, and the "Unsupported OS" branch can never be taken. | a rule given as a string for an OS no installer was registered for, in a fresh registry | an OS without installers is reported as "Unsupported OS" | not executed | Lookup.ResolveAsWritten, Lookup.UnsupportedOsMisreported | Lookup.Resolve |
| src/rosdep2/installers.py:355 | `get_depends` reads `rosdep_args_dict`, a name that is not bound. | an installer that supports `depends`, with the rule `{depends: [foo]}` | return the rule's `depends` list, `[]` without one | not executed | Installers.GetDependsAsWritten, Installers.GetDependsDiscrepancy | Installers.GetDepends |
| src/rosdep2/platforms/gentoo.py:59-60 | `equery_available` stores the output in `std_out` but reads `stdout`, which is not bound. | `/usr/bin/equery` present | compare characters 8 to 11 of the `equery -V` output with `0.3.` | not executed | Gentoo.EqueryAvailableAsWritten, Gentoo.GetInstallCommandAsWritten | Gentoo.EqueryAvailable, Gentoo.GetInstallCommand |
| src/rosdep2/rospkg_loader.py:96 | `is_version_consistent` collects the second dependency's tags by testing the first dependency. | `foo >= 1.0` against `foo < 0.5` | test the second dependency's own tags | not executed | RospkgLoader.IsVersionConsistent, RospkgLoader.SecondTagsIgnored | RospkgLoader.IsVersionConsistentFixed, RospkgLoader.SecondTagsChecked |
| src/rosdep2/rospkg_loader.py:154-155 | `dep_version_faulty_redundancy` unpacks a pair from `is_version_consistent`, which returns a bare `True` when consistent. | the dependency `foo` listed twice without version requirements | report nothing for a consistent pair | not executed | RospkgLoader.FaultyRedundancy, RospkgLoader.RepeatedDependencyRaises, RospkgLoader.DependencyVersionCheck, RospkgLoader.VersionCheckDiscrepancy | RospkgLoader.FaultyRedundancyFixed, RospkgLoader.DependencyVersionCheckFixed |
| distro.py:132 | `depends` has the default `res=[]`, one list shared by every call that omits `res`. | a call whose packages have dependencies, followed by a call for a package without any | each call starts from an empty list | not executed | Distro.DependsCalls, Distro.DependsDefaultLeaks | Distro.DependsIsClosure |
| src/rosdep2/dependency_graph.py:59 | `validate` calls `self.has_key`, which Python 3 dictionaries lack. | under Python 3, any graph in which a key has a dependency, such as `a` on `b` | test membership with `in` | not executed | DependencyGraph.ValidateAsWritten, DependencyGraph.HasKeyRejectsValidGraph | DependencyGraph.Validate |
| src/rosdep2/platforms/slackware.py:64-66 | `sbotools_detect_single` hands the `str` that `read_stdout` returns under Python 3 (shell_utils.py:71-72) to `communicate` on a binary pipe. | under Python 3, a listing with the entry `ros-1.0`, asking about `ros` | encode the listing, or open the pipe in text mode | not executed | Slackware.SbotoolsDetectAsWritten, Slackware.PipeRaisesOnInstalled | Slackware.SbotoolsDetect, Slackware.DetectsListedEntry |
