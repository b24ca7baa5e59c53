# Storage engine of asciii, in Dafny

asciii keeps one folder per business record (a project). The folders sit under one storage root:

- `working/` holds the current records.
- `archive/<year>/` holds one partition per year.
- `templates/` holds the templates.

The storage engine in `src/storage/mod.rs` does the following:

- It builds that layout from a root path and three directory names.
- It lists the folders of the working directory, of a year's partition, or of all of them.
- It finds a record's file inside its folder. This is the first visible file with the record type's extension, and its stem is the record's name.
- It creates a record from a template.
- It moves record folders into a year's partition and back out again.
- It opens records and searches them, by a substring or by their position in index order.

The model has these modules:

- `Errors`: the `StorageError` kinds and the `Result` and `Option` types.
- `FsPath`: paths as an absolute flag plus components. This covers `join`, `parent`, `file_name`, `file_stem`, `extension`, `starts_with` and `ends_with`.
- `Numbers`: `i32`/`usize` parsing and `to_string` for years.
- `Fs`: the filesystem as a sequence of entries, each a path with a directory or file node. Its order is the directory-listing order. A class `FileSystem` holds it, and its `CreateDir`, `Rename` and `Copy` update it in place. Each is specified by a function (`CreateDirSpec`, `RenameSpec`, `CopySpec`).
- `Layout`: the `Storage` paths, `StorageDir`, `StorageSelection`, `try_new`, `health_check`, `create_dirs` and `create_archive`.
- `Listing`: dot files, `list_path_content`, `list_years`, `list_project_folders`, `get_project_file`, `get_project_name`, `list_project_files` and `get_project_dir`.
- `Search`: `open_project`, `open_paths`, `open_projects_dir`, `open_projects`, the stable sort by index, `search_projects` and `search_projects_any`.
- `Creating`: `create_project`.
- `Archiving`: `archive_project` and `archive_projects_if`.
- `Unarchiving`: `unarchive_project_dir` and `unarchive_projects`.
- `RoundTrip`: archiving a record and unarchiving it again.

Every operation that changes the filesystem is a method that takes the `FileSystem`. Each method's `ensures` ties its result and the new entries to a pure specification function of the old entries, e.g. `ArchiveProjectSpec`. The properties are proved about those functions.

The loops of `list_project_folders(All)`, `search_projects_any`, `archive_projects_if` and `unarchive_projects` are `while` loops. Their invariants carry the remaining work as the specification function applied to the rest of the input.

The record type `L: Storable` is a value of `RecordType`. It carries the type's file extension and its foreign hooks:

- `open_folder` and `open_file`;
- `matches_search`;
- the `filter_by_key_val` test that `open_projects_dir(Year)` applies.

A record (`Record`) carries what the engine reads of it: `ident`, `prefix`, `dir`, `index`, `year` and `is_ready_for_archive`.

### Where the code differs from the documented behaviour

The model follows the code in each of these cases:

- **Search by position.** A term `N<digits>` selects the record at that 1-based position in index order, as documented. The code also selects every record whose `matches_search` accepts the lowercased term, so `N2` also finds records whose text contains `n2` (`Search.Keeps`).
- **Records without an index.** These sort as if their index were `"zzzz"`. This is not greater than every real index: a record with index `"zzzzz"` sorts after a record without one (`Search.SentinelIsNotLast`).
- **The default selection.** `StorageSelection::default()` is a directory and no search terms. Opening it searches with no terms, finds nothing and fails with `NothingFound([])`. It does not open the whole working directory (`Search.DefaultSelectionFindsNothing`).
- **Order of the unarchive checks.** `unarchive_project_dir` reports a taken name (`ProjectFileExists`) before it checks where the folder sits (`InvalidDirStructure`). A folder with no record file fails before either check (`Unarchiving.UnarchiveChecksInOrder`).

## Model

| member | source | states |
|---|---|---|
| Layout.TryNew | src/storage/mod.rs:230-246 | fails exactly when the root is not absolute, with `StoragePathNotAbsolute`; otherwise keeps the root and has no repository |
| Layout.TryNewWellFormed | src/storage/mod.rs:230-246 | for an absolute root and three distinct plain names: working, archive and templates are distinct children of the root named by those names, and extras is `root/extras` |
| Layout.HealthCheck | src/storage/mod.rs:258-272 | succeeds exactly when root, working, archive and templates all exist; otherwise `InvalidDirStructure` |
| Layout.GetRepository | src/storage/mod.rs:305-307 | yields the attached repository exactly when there is one, else `RepoUninitialized` |
| Layout.CreateDirsSpec | src/storage/mod.rs:330-340 | a relative root fails with `StoragePathNotAbsolute` and changes nothing; only adds entries; on success the layout passes `health_check` |
| Layout.CreateDirs | src/storage/mod.rs:330-340 | the result and new filesystem are those of `CreateDirsSpec` |
| Layout.CreateDirsIdempotent | src/storage/mod.rs:326-340 | a second `create_dirs` after a successful one succeeds and changes nothing |
| Layout.CreateDirsKeepsValid | src/storage/mod.rs:330-340 | creating the layout keeps the filesystem well formed (distinct absolute paths, every parent a directory) |
| Layout.CreateDirsSucceeds | src/storage/mod.rs:330-340 | with a well-formed layout whose root is a directory, or is missing under a directory, `create_dirs` succeeds |
| Layout.PartitionIsChild | src/storage/mod.rs:352 | the partition of a year is a child of the archive named by the year's decimal string |
| Layout.CreateArchiveSpec | src/storage/mod.rs:350-359 | on success returns the year's partition, which then exists; only adds entries; on failure changes nothing |
| Layout.CreateArchive | src/storage/mod.rs:350-359 | the result and new filesystem are those of `CreateArchiveSpec` |
| Layout.CreateArchiveKeepsNodes | src/storage/mod.rs:350-359 | creating a partition changes the node of no path other than the new partition |
| Layout.CreateArchiveIdempotent | src/storage/mod.rs:355-358 | creating an existing partition again returns the same path and changes nothing |
| Layout.CreateArchiveSucceeds | src/storage/mod.rs:350-359 | when the archive is a directory, the partition is created (or found) and the filesystem stays well formed |
| Fs.FileSystem.CreateDir | src/storage/mod.rs:334-337 | `fs::create_dir`: adds a directory when its parent is a directory and the path is free, else fails and changes nothing |
| Fs.FileSystem.Rename | src/storage/mod.rs:521 | `fs::rename` of a folder: moves the folder and everything under it, else fails and changes nothing |
| Fs.FileSystem.Copy | src/storage/mod.rs:465 | `fs::copy`: stores the source file's content at the target, else fails and changes nothing |
| Fs.RenameKeepsValid | src/storage/mod.rs:521 | a rename keeps the filesystem well formed |
| Fs.RenameMoves | src/storage/mod.rs:521 | after a rename the source is gone and the target holds the source's node; every path outside both keeps its node, and every path inside the source has its node at the same place inside the target |
| Fs.RenameKeepsOutside | src/storage/mod.rs:521 | a rename leaves the node at every path outside both the source and the target as it was |
| Fs.RenameCarriesInside | src/storage/mod.rs:521 | a rename puts the node of every path inside the source at the same place inside the target |
| Fs.RenameInverse | src/storage/mod.rs:521 | renaming back restores the filesystem exactly |
| Fs.CreateDirKeepsValid | src/storage/mod.rs:334-337 | a successful `create_dir` appends one directory entry and keeps the filesystem well formed |
| Fs.CopyKeepsValid | src/storage/mod.rs:465 | a successful copy keeps the filesystem well formed |
| Fs.ChildrenMembers | src/storage/mod.rs:156-157 | `read_dir` yields exactly the existing paths whose parent is the directory |
| Fs.ReadDir | src/storage/mod.rs:156 | `read_dir` succeeds exactly on a directory |
| Fs.ChildrenRebased | src/storage/mod.rs:521 | the entries of a moved folder are the old entries moved along, in the same order |
| Listing.Visible | src/storage/mod.rs:132-139 | keeps exactly the paths whose file name does not start with `.` |
| Listing.ListPathContent | src/storage/mod.rs:151-161 | succeeds exactly on a directory (else `Io`); lists exactly its existing children that are not dot files |
| Listing.YearsOf | src/storage/mod.rs:424-428 | a year is listed exactly when some path's stem parses as that `i32` |
| Listing.SortYears | src/storage/mod.rs:429 | `sort_unstable`: ascending and a permutation of the input |
| Listing.SortedUnique | src/storage/mod.rs:429 | two ascending permutations of the same years are equal, so the unstable sort's result is determined |
| Listing.ListYearsSpec | src/storage/mod.rs:421-432 | succeeds exactly when the archive is a directory; ascending; lists exactly the years of the archive's visible children whose stem parses as an `i32` |
| Listing.PartitionListings | src/storage/mod.rs:740-744 | every folder listed is visible, exists and sits in the partition of one of the years |
| Listing.ListProjectFoldersSpec | src/storage/mod.rs:733-752 | `Year`, `Root`, `Templates`, `Extras` give `BadChoice`; `Working` fails exactly when it is not a directory; `Archive` never fails and gives `[]` for a missing partition; every folder listed exists and is visible |
| Listing.ListProjectFolders | src/storage/mod.rs:733-752 | the result is that of `ListProjectFoldersSpec` |
| Listing.ListAllFolders | src/storage/mod.rs:742-749 | the loop over the years then the working directory gives the result of `ListProjectFoldersSpec(All)` |
| Listing.PartitionListingsMembers | src/storage/mod.rs:744-746 | the appended partition listings hold exactly the visible entries directly inside the partitions of the given years |
| Listing.AllFoldersMembers | src/storage/mod.rs:742-749 | a successful `All` listing holds exactly the visible entries directly inside the working directory or inside the partition of a year the archive holds |
| Listing.AllInYearOrder | src/storage/mod.rs:742-749 | the folders `All` lists are ordered by the year of their partition, with the working directory's last |
| Listing.FirstWithExtension | src/storage/mod.rs:709-710 | finds the first path with the extension, and none before it has it |
| Listing.ProjectFileFound | src/storage/mod.rs:707-713 | not a directory gives `Io`; a found file exists in the folder, is visible and has the extension; it fails with `ProjectDoesNotExist` exactly when no visible child has the extension |
| Listing.GetProjectName | src/storage/mod.rs:715-721 | the name is the stem of the record file; the record file's error is passed on |
| Listing.ProjectFilesOf | src/storage/mod.rs:765-771 | succeeds exactly when every folder has a record file; yields them in folder order |
| Listing.ListProjectFiles | src/storage/mod.rs:765-771 | each file listed is the record file of the folder at the same position |
| Listing.FirstEndingWith | src/storage/mod.rs:725 | finds the first file ending with the given tail, and none before it does |
| Listing.GetProjectDirFromArchive | src/storage/mod.rs:723-730 | a found folder is the parent of one of the year's record files, named `slug.ext` |
| Listing.GetProjectDir | src/storage/mod.rs:689-702 | directories other than `Working` and `Archive` give `BadChoice`; in `Working` it finds `working/slug` exactly when that exists; any miss is `ProjectDoesNotExist` |
| Search.OpenProject | src/storage/mod.rs:897-909 | a directory is opened as a folder, anything else as a file |
| Search.OpenPaths | src/storage/mod.rs:833-855 | yields exactly the records of the paths that open, never more than there are paths |
| Search.OpenPathsConcat | src/storage/mod.rs:833-855 | opening two runs of paths yields the first run's records followed by the second's, so records keep the order of their paths and each path yields at most one |
| Search.FilterByKeyVal | src/storage/mod.rs:865 | keeps exactly the records the record type's key/value test accepts |
| Search.FilterByKeyValConcat | src/storage/mod.rs:865 | filtering two runs of records filters each in turn and keeps their order |
| Search.FilterByKeyValKeepsAll | src/storage/mod.rs:865 | records that all pass the test come back unchanged, order and repeats included |
| Search.OpenListed | src/storage/mod.rs:869-871 | fails exactly when listing the folders fails, with the same error; otherwise yields the records `open_paths` opens from the listed folders |
| Search.OpenProjectsDir | src/storage/mod.rs:858-873 | `Year(y)` fails exactly when the working directory is missing; otherwise it yields the records of the archive partition of `y` followed by those of the working directory, filtered to `Year` equal to `y`; other directories open what they list |
| Search.YearArchivedFirst | src/storage/mod.rs:862-865 | the archived records of the year come first, then the working records, each run filtered by `Year` in its own order |
| Search.YearMembers | src/storage/mod.rs:862-866 | a record is opened for `Year(y)` if and only if its `Year` is `y` and it opens from a folder listed in the partition of `y` or in the working directory |
| Search.LexLeTotal | src/storage/mod.rs:659-663 | the string order of `cmp` is total |
| Search.LexLeTrans | src/storage/mod.rs:659-663 | the string order of `cmp` is transitive |
| Search.LexLeAntisymmetric | src/storage/mod.rs:659-663 | the string order of `cmp` is antisymmetric |
| Search.InsertStable | src/storage/mod.rs:659-663 | inserting into a sorted list keeps it sorted, adds exactly the record, and puts it after the records with an equal index |
| Search.SortByIndex | src/storage/mod.rs:659-663 | `sort_by` on the index (missing as `"zzzz"`): sorted, a permutation, and stable (records with equal keys keep their order) |
| Search.SentinelIsNotLast | src/storage/mod.rs:661-662 | a record without an index sorts before one with index `"zzzzz"` |
| Search.Lower | src/storage/mod.rs:668 | `to_lowercase` on ASCII letters, same length, other characters unchanged |
| Search.SearchIndex | src/storage/mod.rs:651-658 | a position is read exactly from terms `N<digits>` whose digits parse as a `usize` |
| Search.SelectKeeps | src/storage/mod.rs:664-671 | keeps exactly the records at position `n` for a term `Nn`, or that match the lowercased term |
| Search.SelectInOrder | src/storage/mod.rs:664-671 | the records kept appear in sorted order |
| Search.SearchProjects | src/storage/mod.rs:649-674 | fails exactly when opening fails; keeps from the index-sorted records those the term selects; every record found was opened |
| Search.SearchAny | src/storage/mod.rs:678-686 | no terms give `[]`; otherwise fails exactly when opening fails; every record found was opened |
| Search.SearchProjectsAny | src/storage/mod.rs:678-686 | the loop over the terms gives the result of `SearchAny` |
| Search.SearchAnyOneTerm | src/storage/mod.rs:678-686 | one term is `search_projects` of that term |
| Search.SearchAnyConcat | src/storage/mod.rs:681-683 | results are concatenated per term, in term order |
| Search.RepeatedTermRepeats | src/storage/mod.rs:681-683 | a repeated term gives its records twice, since nothing is deduplicated |
| Search.SearchAnyFails | src/storage/mod.rs:682 | the first failing term's error is the result |
| Search.FindAllFromTerms | src/storage/mod.rs:681-683 | every record found was selected by one of the terms |
| Search.OpenProjects | src/storage/mod.rs:785-805 | a search that finds nothing fails with `NothingFound(terms)`; any other search result, records or error, is returned as is; `Dir` opens the directory; `Paths` opens the paths |
| Search.SearchSelectionFinds | src/storage/mod.rs:790-798 | a search selection succeeds if and only if the search succeeds with at least one record; every record it yields was opened from the directory and matched one of the terms |
| Search.DefaultSelectionFindsNothing | src/storage/mod.rs:126-130 | opening the default selection fails with `NothingFound([])` |
| Creating.CreateProjectOutcomes | src/storage/mod.rs:436-470 | no working dir gives `NoWorkingDir`, an existing folder gives `ProjectDirExists`, a failed template gives its error, all without change; success returns `working/slug/slug.ext`, with the folder a directory and the file present; a failure leaves at most the new folder |
| Creating.CreateProject | src/storage/mod.rs:436-470 | the result and new filesystem are those of `CreateProjectSpec` |
| Creating.CreatedEntries | src/storage/mod.rs:464-465 | success adds exactly the folder and the record file |
| Creating.CreatedProjectIsFound | src/storage/mod.rs:436-470 | after creating, `get_project_dir` finds the folder, `get_project_file` the file and `get_project_name` the slug |
| Creating.CreateProjectTwiceFails | src/storage/mod.rs:446-450 | creating the same slug again fails with `ProjectDirExists` and changes nothing |
| Archiving.ArchiveProjectOutcome | src/storage/mod.rs:507-532 | success yields `[dir, archive/year/name]` and means the folder could be moved there; failure only adds the partition; with a relative name the archive still exists |
| Archiving.ArchiveProject | src/storage/mod.rs:507-532 | the result and new filesystem are those of `ArchiveProjectSpec` |
| Archiving.ArchiveMoves | src/storage/mod.rs:517-521 | after archiving, the folder is gone from its old place and every path inside it has its node at the same place inside the target; every other existing path keeps its node, only the new partition can appear outside the two folders, and the filesystem is well formed |
| Archiving.EligibleIsReported | src/storage/mod.rs:551-557 | every ready (or forced) record is reported with its folder and its target |
| Archiving.ReportedIsEligible | src/storage/mod.rs:551-557 | every reported path belongs to a ready (or forced) record |
| Archiving.ArchiveEachReports | src/storage/mod.rs:549-562 | when the loop succeeds, every eligible record had a year and the report is folder, folder, target per eligible record |
| Archiving.ArchiveEachNothingEligible | src/storage/mod.rs:549-562 | with no eligible record the loop reports nothing and changes nothing |
| Archiving.ArchiveIfSpec | src/storage/mod.rs:538-568 | a failing search fails the same way and an empty one with `ProjectDoesNotExist`, both without change; success reports the expected moves |
| Archiving.ArchiveProjectsIf | src/storage/mod.rs:538-568 | the result and new filesystem are those of `ArchiveIfSpec` |
| Archiving.ArchiveEachMoves | src/storage/mod.rs:549-562 | when the loop gets through, the filesystem is well formed, every eligible folder existed and is gone with all it held at the same place under its archive target, and the rest of the working directory, everything that was in the archive, and everything outside the two directories keep their nodes |
| Archiving.ArchiveIfMoves | src/storage/mod.rs:538-568 | when `archive_projects_if` gets through, the records the search found are archived as `ArchiveEachMoves` states, and the folder of every record that was not archived keeps its node |
| Archiving.ArchiveRecords | src/storage/mod.rs:549-562 | the loop over the found records gives the result and filesystem of `ArchiveEach` |
| Unarchiving.UnarchiveProjectDirSpec | src/storage/mod.rs:612-640 | success means the folder sat in a year's partition and was renamed to its target; failure changes nothing |
| Unarchiving.UnarchiveChecksInOrder | src/storage/mod.rs:615-637 | no record name gives that error, a taken name gives `ProjectFileExists`, a folder outside a partition gives `InvalidDirStructure`, in that order; the target is `working/<name>` |
| Unarchiving.UnarchiveRefusesTakenName | src/storage/mod.rs:626-628 | an occupied target in the working directory is refused with `ProjectFileExists` |
| Unarchiving.UnarchiveProjectDir | src/storage/mod.rs:612-640 | the result and new filesystem are those of `UnarchiveProjectDirSpec` |
| Unarchiving.UnarchiveMoves | src/storage/mod.rs:633 | after unarchiving, the folder is gone from the archive, its node is at the target, and the filesystem is well formed |
| Unarchiving.UnarchiveEach | src/storage/mod.rs:591-596 | reports two paths per record, the records' folders at the even positions |
| Unarchiving.UnarchivedWereArchived | src/storage/mod.rs:591-596 | every record the loop moves sat in a year's partition |
| Unarchiving.UnarchiveProjectsSpec | src/storage/mod.rs:588-604 | a failing search fails the same way without change; otherwise two paths per record found; no terms do nothing |
| Unarchiving.UnarchiveProjects | src/storage/mod.rs:588-604 | the result and new filesystem are those of `UnarchiveProjectsSpec` |
| Unarchiving.UnarchiveRecords | src/storage/mod.rs:591-596 | the loop gives the result and filesystem of `UnarchiveEach` |
| RoundTrip.ProjectNameMoves | src/storage/mod.rs:715-721 | a folder moved to a fresh place keeps its record name |
| RoundTrip.ArchiveThenUnarchive | src/storage/mod.rs:507-640 | unarchiving a just-archived folder returns it to its old place under the same name and restores the filesystem, except for the new partition |
| Numbers.ParseI32OfIntToString | src/storage/mod.rs:352 | an `i32` year's string parses back to the year |
| Numbers.ParseI32 | src/storage/mod.rs:427 | a parsed `i32` lies within its range |
| Numbers.ParseUsize | src/storage/mod.rs:652 | a parsed `usize` lies within its range |

## Left out

- I/O errors other than the ones a filesystem state decides. `read_dir`, `create_dir`, `rename` and `copy` fail (`Io`) only when the entries say they must; permissions, full disks and races are not modelled.
- Directory-listing order is the order in which entries were created. A rename keeps each moved entry's position. The real order is defined by the operating system.
- `fs::rename` onto an existing path fails in the model, whereas POSIX would replace an empty directory. `fs::copy` onto an existing file replaces it, as in Rust.
- Relative paths and `..` are not resolved. `join` treats a name starting with `/` as replacing the path, as Rust does.
- The git side channel (`Repository`, `repo.add`, `try_new_with_git`, `setup_with_git`, git statuses in `open_paths`): not modelled. `archive_project`, `archive_projects_if` and `unarchive_projects` ignore `repo.add`'s outcome.
- Rayon's parallel `open_paths`: modelled sequentially. It yields the same records in the same order.
- `filter_by_key_val`, `slugify`, `from_template`, `get_template_file`, `open_folder`, `open_file` and `matches_search` belong to the record type or to other modules. They are parameters: the `RecordType` hooks, the slug itself, and the prepared template path as a `Result<Path>`.
- `create_project` returns the record opened from the template with its file reset to the copy. The model returns the copy's path.
- Logging and `println!`: left out. The `project.year().unwrap()` inside the info log line of `archive_projects_if` panics only when that log level is enabled, so the model treats it as not evaluated.
- Panics become preconditions: the `assert!` of `create_archive`, the year `unwrap()` of `archive_projects_if`, the `unwrap()` of `unarchive_projects`, `metadata().unwrap()` in `open_project`, and `unreachable!()` for `Uninitialized`.
- `confirm()` in `archive_projects_if` is the boolean `force`.
- `to_lowercase` is modelled for ASCII letters only. Other characters are left unchanged.
- `get_storage_path`, `replace_home_tilde`, `setup`, `setup_with_git`, `paths` and the plain getters: not modelled. They read the configuration or the environment, or only return fields.
- `list_extra_files`, `get_extra_file`, `list_template_files`, `list_template_names`, `get_template_file`, `archive_project_by_name`, `delete_project_if`, `list_empty_project_dirs`, `filter_project_files`, `open_working_dir_projects`, `open_all_archived_projects` and `open_all_projects`: not modelled. They are templates, extras, deletion, or thin wrappers over the modelled operations.
- `unarchive_project(project)` is `unarchive_project_dir(project.dir())`, so only the latter is modelled.
- Listing.SortYears: `Vec::sort_unstable` sorts in place. The model is a pure sort; `Listing.SortedUnique` shows that any sort's result is the same.
- Archiving.ArchiveMoves: requires the archive name to be relative, i.e. not starting with `/`. An absolute name makes `join` replace the partition path, which the lemma does not cover.
- Archiving.ArchiveEachMoves: assumes every record folder is a direct child of the working directory and every eligible record's archive name is relative. Both hold for records opened from `list_project_folders(Working)` with ordinary names, but the record type is a parameter here, so the lemma states them as hypotheses.
- Archiving.ArchiveIfMoves: takes the same two hypotheses about the records the search finds.
- Unarchiving.UnarchiveEach: states the folders at the even positions. It does not state the targets at the odd positions; `Unarchiving.UnarchiveChecksInOrder` gives each target.
