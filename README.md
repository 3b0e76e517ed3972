# Image-tag bump of a Terraform variables record

This project models `update_image_tag` from `terraform/update_tags.py`, the only
piece of the repository with logic of its own. The function reads a Terraform
variables record (`inputs.tfvars.json`) and looks up its `image_tag` entry. If
the tag is empty it raises "The inputs.tfvars.json file does not contain the
variable image_tag". Otherwise it splits the tag on `.`, parses the last
component as an integer and replaces it with the decimal rendering of that
integer plus one. It joins the components back with `.` and writes the new tag
into the record under `image_tag`.

The Dafny model has four modules:

- `Wrappers` (wrappers.dfy): `Option` and `Result`.
- `Decimal` (decimal.dfy): `int(s)` on strings of ASCII digits (`ParseInt`,
  `Value`) and `str(n)` on naturals (`Render`).
- `Components` (components.dfy): `s.split(".")` and `".".join(parts)` for a
  one-character separator, with both round trips.
- `UpdateTags` (update_tags.dfy): the pure tag bump `BumpTag`, its iteration
  `BumpTimes`, and the specification `UpdatedRecord` of the whole record update.
  The record itself is the `data` field of class `TfVarsFile`. Its method
  `UpdateImageTag` performs the steps of the source in order. It rebinds its
  local component list to a copy with the last element replaced (the list is
  never shared, so this matches the source's assignment into the list). It then
  overwrites the record's `image_tag` entry in place. It is proved against
  `UpdatedRecord`.

The three ways the source can fail are the constructors of `UpdateTags.Error`,
in the order the source meets them:

- `KeyNotFound`: the subscript `data['image_tag']` raises `KeyError` when the
  key is absent.
- `ImageTagMissing`: the custom exception, raised for an empty tag.
- `InvalidLiteral`: the `ValueError` of `int()` on a last component that is not
  a numeral. An empty last component, as in `"1."`, is one of these.

On every error the record is left unchanged.

## Model

| member | source | states |
|---|---|---|
| `Decimal.Render` | terraform/update_tags.py:13 | `str(n)` is a non-empty digit string without a leading zero whose value is `n`; it has more than one digit exactly when `n >= 10` |
| `Decimal.ValueBound` | terraform/update_tags.py:13 | `Value`, the integer `int()` returns, reads the digits most significant first, so a string of k digits denotes less than 10^k |
| `Decimal.ParseInt` | terraform/update_tags.py:13 | `int()` on the last component succeeds exactly when it is a non-empty string of ASCII digits |
| `Decimal.ParseRender` | terraform/update_tags.py:13 | rendering the parsed integer gives the numeral with its leading zeros removed (`"007"` gives `"7"`) |
| `Decimal.RenderValue` | terraform/update_tags.py:13 | `str(int(s)) == s` for every numeral `s` without a leading zero |
| `Decimal.CanonicalFormValue` | terraform/update_tags.py:13 | leading zeros do not change the integer a numeral denotes |
| `Components.JoinLength` | terraform/update_tags.py:14 | `Join`, the model of `".".join(parts)`, adds exactly one character per gap between neighbouring parts: its length is the parts' total length plus the number of gaps. `SplitJoin` shows that `Split` undoes it |
| `Components.Split` | terraform/update_tags.py:12 | `split(".")` always yields at least one component, and no component contains `.` |
| `Components.SplitCount` | terraform/update_tags.py:12 | there is exactly one more component than there are dots in the tag |
| `Components.JoinSplit` | terraform/update_tags.py:12-14 | joining the split components with `.` restores the original string |
| `Components.SplitJoin` | terraform/update_tags.py:12-14 | splitting a `.`-join of dot-free components gives exactly those components back |
| `UpdateTags.IncrementLast` | terraform/update_tags.py:13 | the component list keeps its length and everything but its last element; the new last element is a canonical numeral one greater than the old |
| `UpdateTags.BumpTag` | terraform/update_tags.py:11-14 | the bump succeeds exactly when the last component is a numeral, and otherwise fails with the `ValueError` naming that component |
| `UpdateTags.BumpTagComponents` | terraform/update_tags.py:12-14 | splitting the bumped tag gives exactly the modified list that was joined: same component count, same prefix, last component `str(int(last) + 1)` |
| `UpdateTags.BumpTagAdvances` | terraform/update_tags.py:13 | one bump advances the value of the last component by exactly one and leaves the rest alone |
| `UpdateTags.BumpTimesAdds` | terraform/update_tags.py:13 | bumping `n` times succeeds, keeps the component count and prefix, and adds `n` to the last component |
| `UpdateTags.BumpTimesDistinct` | terraform/update_tags.py:13 | different numbers of bumps never give the same tag, so a bump never returns its input |
| `UpdateTags.ExampleCarry` | terraform/update_tags.py:12-14 | `"1.2.9"` becomes `"1.2.10"` |
| `UpdateTags.ExampleLeadingZeros` | terraform/update_tags.py:13 | `"007"` becomes `"8"`: a tag without a dot is bumped as a whole, and leading zeros are not kept |
| `UpdateTags.ExampleInvalid` | terraform/update_tags.py:13 | `"v1.x"` and `"1."` fail to parse their last component (`"x"`, `""`) |
| `UpdateTags.UpdatedRecord` | terraform/update_tags.py:10-23 | a missing key fails on lookup; an empty tag raises the "does not contain the variable image_tag" error; a non-numeric last component fails to parse; on success the keys are the same, `image_tag` holds the bumped tag and every other entry is unchanged |
| `UpdateTags.UpdateTwice` | terraform/update_tags.py:10-17 | a successful update can be repeated; two updates bump the tag twice and still change no other entry |
| `UpdateTags.TfVarsFile.constructor` | terraform/update_tags.py:6-7 | the object holds the record that was loaded |
| `UpdateTags.TfVarsFile.UpdateImageTag` | terraform/update_tags.py:10-23 | the in-place update ends in the state `UpdatedRecord` describes: on success the record is the updated one and the new tag is returned; on error the record is unchanged and the error is the one `UpdatedRecord` gives; either way no key is added or removed and no entry but `image_tag` changes |

## Left out

- Reading and writing `inputs.tfvars.json` (lines 6-8 and 19-21) is not modelled. The record is a `map<string, string>` held by `TfVarsFile`, and on success the new record is what would be written.
- The `print` of the new tag (line 15) is not modelled. `UpdateImageTag` returns the new tag instead.
- Record values are strings only. A non-string JSON value for `image_tag` (a number, `null`, a list) is not modelled. So `ImageTagMissing` covers the empty string, the only falsy string.
- `ParseInt`: Python's `int()` also accepts surrounding whitespace, a `+` or `-` sign, underscores between digits and non-ASCII decimal digits. The model treats all of these as parse errors, for example `"1.+2"`, `"1. 2"` and `"1.-1"`. Only non-empty ASCII digit strings parse.
- `ParseInt` and `Render`: the digit-count limit of CPython 3.11 and later (and of the 3.10.7, 3.9.14, 3.8.14 and 3.7.14 patch releases) is not modelled. There `int(str)` and `str(int)` raise `ValueError` past 4300 digits by default (`sys.int_info.default_max_str_digits`). So for a tag such as `"1."` followed by 4301 nines, line 13 raises, while `BumpTag` returns `Ok`. The model follows Python's unbounded integer arithmetic with no such limit, as older interpreters do.
- `a.py`, `main.py`, `pipeline.py`, `t.py` and the files under `.github/dagger/` are not modelled. They only chain calls into the external Dagger container client: build, exec, directory mounts, export, publish and `anyio` connections. None of these calls has semantics visible in the source.
- The commented-out multi-module Terraform runner at a.py:5-51 is not modelled. It is a string literal that is never executed.
- The build-matrix loop at a.py:86-99 is not modelled. It only passes constants to the container client.
- The environment-variable configuration (t.py:7, and the `os.getenv` defaults in `.github/dagger/commands/terraform/tf.py`) is not modelled. It only feeds values into container commands.
