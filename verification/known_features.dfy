/** The features `PHPFeature` knows when no configuration is given: each
    name maps to the PHP release that introduced it
    (config/known_features.php). */
module KnownFeatures {
  import opened Registry

  const Known: Config := map[
    "zend-engine-2" := OneRequirement(">=5.0.0"),
    "oop" := OneRequirement(">=5.0.0"),
    "classes" := OneRequirement(">=5.0.0"),
    "object-model" := OneRequirement(">=5.0.0"),
    "pdo" := OneRequirement(">=5.1.0"),
    "native-json" := OneRequirement(">=5.2.0"),
    "namespaces" := OneRequirement(">=5.3.0"),
    "late-static-bindings" := OneRequirement(">=5.3.0"),
    "jump-labels" := OneRequirement(">=5.3.0"),
    "closures" := OneRequirement(">=5.3.0"),
    "php-archives" := OneRequirement(">=5.3.0"),
    "phar" := OneRequirement(">=5.3.0"),
    "circular-garbage-collection" := OneRequirement(">=5.3.0"),
    "sqlite3" := OneRequirement(">=5.3.0"),
    "mysqlnd" := OneRequirement(">=5.3.0"),
    "fileinfo" := OneRequirement(">=5.3.0"),
    "traits" := OneRequirement(">=5.4.0"),
    "short-array-syntax" := OneRequirement(">=5.4.0"),
    "[]" := OneRequirement(">=5.4.0"),
    "built-in-web-server" := OneRequirement(">=5.4.0"),
    "generators" := OneRequirement(">=5.5.0"),
    "finally" := OneRequirement(">=5.5.0"),
    "opcache" := OneRequirement(">=5.5.0"),
    "constant-scalars" := OneRequirement(">=5.6.0"),
    "variadic-functions" := OneRequirement(">=5.6.0"),
    "argument-unpacking" := OneRequirement(">=5.6.0"),
    "exponentiation-operator" := OneRequirement(">=5.6.0"),
    "phpdbg" := OneRequirement(">=5.6.0"),
    "zend-engine-3" := OneRequirement(">=7.0.0"),
    "uniform-variable-syntax" := OneRequirement(">=7.0.0"),
    "ast-based-compilation" := OneRequirement(">=7.0.0"),
    "closure-call" := OneRequirement(">=7.0.0"),
    "null-coalesce-operator" := OneRequirement(">=7.0.0"),
    "??" := OneRequirement(">=7.0.0"),
    "return-type-declarations" := OneRequirement(">=7.0.0"),
    "scalar-type-declarations" := OneRequirement(">=7.0.0"),
    "spaceship-operator" := OneRequirement(">=7.0.0"),
    "three-way-comparison-operator" := OneRequirement(">=7.0.0"),
    "<=>" := OneRequirement(">=7.0.0"),
    "generator-delegation" := OneRequirement(">=7.0.0"),
    "anonymous-classes" := OneRequirement(">=7.0.0"),
    "multiple-namespace-import" := OneRequirement(">=7.0.0"),
    "void-return-type" := OneRequirement(">=7.1.0"),
    "constant-visibility-modifiers" := OneRequirement(">=7.1.0")
  ]
}
