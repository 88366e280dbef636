# Stack-name splitting and configuration key aliasing

A Dafny model of the two pieces of original logic in a homelab deployment
repository whose services are declared with Pulumi:

- **Stack-name splitting** (`Instances`). A deployment stack is named after a
  standard base stack, `prod` or `dev`, optionally followed by an instance
  suffix (`prod-myinst`). The base selects the shared Kubernetes stack to
  reference; the suffix is appended to hostnames and namespaces so that several
  instances of a service can coexist. The standard names are tried in order and
  the first one the stack name starts with wins; the suffix is whatever follows
  it, with no separator required. A name starting with neither fails.
- **Configuration key aliasing** (`ConfigModel`). Every configuration model
  derives from one base model whose settings give each field an alias (the
  field name with `_` replaced by `-`), accept a key given either as the field
  name or as the alias, and reject any other key.

`Wrappers` holds the `Option` and `Result` types that stand in for the
source's exceptions. The stack name, which the source reads from the
deployment engine, is a parameter. The exception raised for a non-standard
name becomes `Failure(NonStandardName(stackName))`.

Field names are Python identifiers, so they never contain `-`. That is the
only property of identifiers the aliasing relies on. `IsFieldName` captures it,
and `AliasCollidesOnNonIdentifiers` shows that injectivity fails without it.
`Unalias` is a reference inverse of the alias generator. It is not part of the
source; it exists only to state the round trip. Key resolution treats a
model's fields as a sequence in declaration order.

Validating a whole input follows pydantic's rule for these settings. Each
field reads its alias when the input holds it, and its name otherwise. A
field reads only one key. Every key no field reads is extra, and extra keys
are forbidden. So an input that gives both `foo_bar` and `foo-bar` for field
`foo_bar` is rejected, with `foo_bar` as the extra key.

## Model

| member | source | states |
|---|---|---|
| Instances.SplitWith | services/utils/src/utils/instances.py:16-20 | Trying names in order: on success the base is the first name the stack name starts with, and base followed by suffix is the stack name. It fails, with the stack name in the error, exactly when no name is a prefix. |
| Instances.SplitStackName | services/utils/src/utils/instances.py:5-20 | Succeeds iff the stack name starts with `prod` or `dev`. The base is then `prod` or `dev`, base plus suffix is the stack name, and the suffix is the stack name minus its first base-length characters, of length `|stackName| - |base|`. Otherwise it yields the non-standard-name error. |
| Instances.StandardNamesExclusive | services/utils/src/utils/instances.py:5 | No stack name starts with both standard names, so at most one can match. |
| Instances.SplitStackNameUnique | services/utils/src/utils/instances.py:5-18 | Whichever standard name a stack name starts with is exactly the base returned, with the remainder as suffix. The result is therefore unique and independent of the order in which the names are tried. |
| Instances.SplitJoin | services/utils/src/utils/instances.py:16-18 | For a standard base and any suffix, splitting `base + suffix` returns that base and that suffix (round trip). |
| Instances.SplitStackNameExamples | services/utils/src/utils/instances.py:9-13 | `prod` and `dev` give an empty suffix, and `prod-myinst` gives `-myinst`. `production` gives `('prod', 'uction')`, and `staging` is rejected. |
| ConfigModel.Alias | services/utils/src/utils/model.py:9 | The alias has the name's length. Position by position, each `_` becomes `-` and every other character is unchanged. The alias contains no `_`. |
| ConfigModel.AliasFixedPoints | services/utils/src/utils/model.py:9 | A name is its own alias iff it contains no `_`. |
| ConfigModel.AliasIdempotent | services/utils/src/utils/model.py:9 | Aliasing an alias changes nothing. |
| ConfigModel.UnaliasAlias | services/utils/src/utils/model.py:9 | A field name (no `-`) is recovered from its alias by turning `-` back into `_`. |
| ConfigModel.AliasInjective | services/utils/src/utils/model.py:9 | Two field names with the same alias are equal, so distinct fields never share an external key. |
| ConfigModel.AliasCollidesOnNonIdentifiers | services/utils/src/utils/model.py:9 | Without the identifier restriction, `a_b` and `a-b` share an alias. |
| ConfigModel.MatchesUnique | services/utils/src/utils/model.py:9-10 | A key that is the name or alias of two fields names the same field twice. No key is ambiguous. |
| ConfigModel.ResolveKey | services/utils/src/utils/model.py:9-11 | A key resolves iff it equals some field's name or alias. It then resolves to a field of the model that it names; any other key is rejected. |
| ConfigModel.ResolveKeyUnique | services/utils/src/utils/model.py:9-10 | Over field names, a key that names a field resolves to exactly that field. |
| ConfigModel.ConsumedIffAcceptedNotShadowed | services/utils/src/utils/model.py:9-11 | Over field names, validation uses a key iff the key names a field and is not a field name whose different alias the input also holds. |
| ConfigModel.NameAndAliasTogether | services/utils/src/utils/model.py:9-11 | For field `foo_bar` and input keys `foo_bar` and `foo-bar`, the alias is used and `foo_bar` is the one extra key. |
| ConfigModel.ExtraKeys | services/utils/src/utils/model.py:11 | The extra keys are exactly the input keys no field uses. Each appears as often as in the input, and used keys do not appear. |
| ConfigModel.ResolveKeys | services/utils/src/utils/model.py:9-11 | An input's keys validate iff every key is used by some field. On success each key is mapped, in order, to the field it resolves to. On failure the extra keys are reported, and there is at least one. |

## Left out

- Reading the stack name from the deployment engine (`p.get_stack()`). It is a call into the engine, so the name is a parameter instead.
- The message text of the `NotImplementedError` for a non-standard stack name. The error value carries the offending stack name only.
- `EnvVarRef.value` (services/utils/src/utils/model.py:18-20). It reads an environment variable and wraps it as a Pulumi secret, which is I/O plus a foreign call.
- Type validation of field values, defaults, and nested models. These are done by the pydantic library, not by repository code. The same holds for the per-model field declarations (the `*/model.py` files), which are data.
- ConfigModel.ResolveKeys: reports extra keys only. The exact shape of pydantic's error report is not modelled.
- The custom DNS-record provider (`unify.UnifyDnsRecordProvider`, `unify.UnifyDnsRecord`). It is only constructed in services/kubernetes/pulumi/kubernetes/microk8s.py:159-170 and services/kubernetes/pulumi/kubernetes/traefik.py:105-116, and its implementation is not part of this model. Its create/read/update/delete and diff behaviour are therefore not modelled.
- All Kubernetes, Proxmox and Cloudflare resource declarations, Helm releases, the Jinja template rendering, the base64 decoding of the rclone configuration, and `Output` concatenation. These are declarative wiring or library calls with no logic of the repository's own.
- The gateway address computed at services/kubernetes/pulumi/kubernetes/microk8s.py:70 (network address plus one). It is a single `ipaddress` library call inside VM plumbing.
