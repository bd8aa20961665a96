# Student selection of automate-org-course-repos

The tool administers a course held in an organization on a Git hosting
service. Four of its commands start from one of two lists computed in
`cmd/utils.go`. Listing students and creating repositories start from the
student list; deleting repositories and pushing content start from the
student repositories. Inviting students and checking pending invitations
use neither list. The two lists are:

- the **students**: the organization's members, minus the members on the
  configured whitelist (teachers, assistants);
- the **student repositories**: the organization's repositories whose name is
  a student's login.

This project models those two computations and the membership test they
share (`contains`), and proves what they return. The two remote reads, the
member listing and the repository listing, are not performed. Their outcomes
are parameters of type `Result<seq<Option<string>>, ApiError>`. A nil
`Login` or `Name` pointer is `None`.

Files:

- `wrappers.dfy`: the `Option` and `Result` datatypes.
- `seqs.dfy`: `Present` (the non-nil values of a list, in order) and
  `IsSubsequence` (order-preserving deletion), with three small lemmas.
- `utils.dfy`: module `Utils`, the model of `cmd/utils.go`.

Each loop of the source is a method with a loop invariant. For `getStudents`
that is `GetStudents`, and for `getStudentRepositoriesNames` it is
`GetStudentRepositoriesNames`. The invariant ties the partial result to a
recursive specification function (`Students`, `StudentRepos`). The lemmas
are about those functions. They say which logins are kept, how many times
each one is kept, and that the order is kept.

The configured whitelist (`Config.WhiteListedMembers`, a global in the
source) is a parameter. A Go nil slice and an empty slice behave alike
wherever these results are used, so both are the empty sequence here.

## Model

| member | source | states |
|---|---|---|
| `Utils.Contains` | cmd/utils.go:11-18 | `found` is true exactly when some element equals `e`, so it is false on an empty sequence; the scan stops at the first matching position (`at`), and no earlier element matches |
| `Utils.Students` | cmd/utils.go:40-50 | the student list is no longer than the member list; no login in it is whitelisted; every login in it is a member's login |
| `Utils.StudentsMultiplicity` | cmd/utils.go:42-50 | a whitelisted login occurs 0 times in the student list; any other login occurs exactly as often as members carry it; nil logins contribute nothing |
| `Utils.StudentsExactlyExcludeWhitelist` | cmd/utils.go:42-50 | a login is in the student list if and only if some member carries it and it is not whitelisted (both directions) |
| `Utils.StudentsInMemberOrder` | cmd/utils.go:40-50 | the student list is an order-preserving subsequence of the members' non-nil logins, so it is at most as long as that list |
| `Utils.GetStudents` | cmd/utils.go:33-53 | a failed member listing returns that error and no list; otherwise the result is the list that `Students` specifies, built by the step-by-step loop with `continue` on nil logins |
| `Utils.StudentRepos` | cmd/utils.go:68-78 | the result is no longer than the repository list; every name in it is a student login and a non-nil repository name |
| `Utils.StudentReposMultiplicity` | cmd/utils.go:70-78 | a name that is a student login occurs as often as repositories carry it; any other name occurs 0 times; nil names contribute nothing |
| `Utils.StudentReposIntersection` | cmd/utils.go:70-77 | a name is returned if and only if it is a non-nil repository name and a student login (both directions) |
| `Utils.StudentReposInRepoOrder` | cmd/utils.go:68-80 | the result is an order-preserving subsequence of the repositories' non-nil names, in the organization's listing order |
| `Utils.StudentRepositoriesOfMembers` | cmd/utils.go:55-80 | composed, a name is returned if and only if it names a repository, is some member's login, and is not whitelisted |
| `Utils.GetStudentRepositoriesNames` | cmd/utils.go:55-81 | a failed member listing returns its error and the repository listing is never issued; a failed repository listing returns its error; otherwise the result is `StudentRepos` of the repositories and the students, and both reads were issued in that order |

## Left out

- The remote reads `Organizations.ListMembers` and `Repositories.ListByOrg` (cmd/utils.go:34, 62) are network calls through the hosting service's client library. Their outcomes are inputs. Which of them is issued is recorded in `requests`.
- The reads pass nil list options, so the service returns only its first page. The model takes whatever list the read returned and does not model paging.
- A nil `*github.User` or `*github.Repository` element would make `member.Login` or `repo.Name` panic. The model's lists hold only the nullable login or name, so this case is not represented.
- `createClient` (cmd/utils.go:20-31) builds an OAuth HTTP client. It is a wrapper over foreign libraries.
- `yesNoPrompt` (cmd/utils.go:83-101) is an interactive terminal prompt.
- cmd/commands.go: every command is a fixed sequence of remote API calls, prompts and file-system reads. This covers repository creation, deletion, the blob/tree/commit/ref push and invitations. Its early exits on an empty student-repository list, an empty content directory, a non-directory entry, an empty commit message or a missing tree SHA are guards around I/O, not modelled logic.
- main.go registers the commands with the CLI library. It is not part of this model.
- cmd/env_loading.go loads the TOML configuration and validates it through external libraries. It is not part of this model. The whitelist it provides is a parameter here.
- Go strings are byte strings, while Dafny's `string` is a sequence of characters. The core only compares logins and names for exact, case-sensitive equality (cmd/utils.go:13, 47, 75). So for the valid UTF-8 values the service returns, the model loses nothing by using characters.
- The content of a client-library error is opaque. `ApiError` carries only a message.
